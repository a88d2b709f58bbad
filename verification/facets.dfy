/*
 * The facet protocol: a facet policy turns a member name and a raw expression
 * into a Descriptor, whose `define` installs a property on a target object.
 * Property installation follows the ECMAScript defineProperty rules; an
 * instance keeps its own properties in a per-instance override map that is
 * consulted before the shared template.
 */
module Facets {
  import opened Values

  /** The built-in policies of the `base` registry. */
  datatype Facet = VarFacet | ConstFacet | OnceVarFacet | GetFacet | VirtualFacet | OnceFacet | ExtendFacet

  /** The policy function's own name, which a Descriptor records as its facet. */
  function FacetName(f: Facet): string {
    match f
    case VarFacet => "var"
    case ConstFacet => "const"
    case OnceVarFacet => "oncevar"
    case GetFacet => "get"
    case VirtualFacet => "virtual"
    case OnceFacet => "once"
    case ExtendFacet => "extend"
  }

  /** The `base` registry: every policy under its own name. */
  const Base: map<string, Facet> := map[
    "var" := VarFacet, "const" := ConstFacet, "oncevar" := OnceVarFacet, "get" := GetFacet,
    "virtual" := VirtualFacet, "once" := OnceFacet, "extend" := ExtendFacet]

  /** What a getter does when a member is read. */
  datatype Getter =
    | CallGetter(fn: Value)        // call a user function
    | ReturnDefault(expr: Value)   // oncevar: answer the declared default
    | RunInitializer(init: Value)  // once: run the initializer and cache its result

  /** What a setter does when a member is written. */
  datatype Setter =
    | CallSetter(fn: Value)        // call a user function with the value
    | InstallValue                 // replace the accessor by a plain writable value

  /** The partial property descriptor a policy writes onto its Descriptor;
      `None` is a field the policy never set. */
  datatype Fields = Fields(
    value: Option<Value>, writable: Option<bool>,
    getter: Option<Getter>, setter: Option<Setter>,
    enumerable: Option<bool>, configurable: Option<bool>)

  /** A property as installed on an object. */
  datatype PropDesc =
    | DataProp(value: Value, writable: bool, enumerable: bool, configurable: bool)
    | AccessorProp(getter: Option<Getter>, setter: Option<Setter>, enumerable: bool, configurable: bool)

  predicate IsAccessorFields(d: Fields) { d.getter.Some? || d.setter.Some? }
  predicate IsDataFields(d: Fields) { d.value.Some? || d.writable.Some? }

  /** Whether a non-configurable property `c` may still receive the fields `d`. */
  predicate Compatible(c: PropDesc, d: Fields) {
    c.configurable ||
    (d.configurable != Some(true)
     && (d.enumerable.None? || d.enumerable == Some(c.enumerable))
     && (if IsAccessorFields(d) then
           c.AccessorProp? && (d.getter.None? || d.getter == c.getter) && (d.setter.None? || d.setter == c.setter)
         else if IsDataFields(d) then
           c.DataProp? && (c.writable || (d.writable != Some(true) && (d.value.None? || d.value == Some(c.value))))
         else true))
  }

  /** Redefining an existing property: fields `d` states win, the others are
      kept, and changing kind resets the other kind's fields to their defaults. */
  function Apply(c: PropDesc, d: Fields): PropDesc {
    var en := d.enumerable.GetOr(c.enumerable);
    var cf := d.configurable.GetOr(c.configurable);
    if IsAccessorFields(d) then
      if c.AccessorProp? then
        AccessorProp(if d.getter.Some? then d.getter else c.getter, if d.setter.Some? then d.setter else c.setter, en, cf)
      else AccessorProp(d.getter, d.setter, en, cf)
    else if IsDataFields(d) then
      if c.DataProp? then DataProp(d.value.GetOr(c.value), d.writable.GetOr(c.writable), en, cf)
      else DataProp(d.value.GetOr(Undefined), d.writable.GetOr(false), en, cf)
    else
      match c
      case DataProp(v, w, _, _) => DataProp(v, w, en, cf)
      case AccessorProp(g, s, _, _) => AccessorProp(g, s, en, cf)
  }

  /** `Reflect.defineProperty` for one name: the property now installed, or
      `None` when the call returns false. `cur` is the current own property. */
  function Install(cur: Option<PropDesc>, extensible: bool, d: Fields): (r: Option<PropDesc>)
    ensures cur.None? ==> (r.Some? <==> extensible)
    ensures cur.Some? && cur.value.configurable ==> r.Some?
    ensures cur.Some? && !cur.value.configurable && d.configurable == Some(true) ==> r.None?
    ensures r.Some? && d.enumerable.Some? ==> r.value.enumerable == d.enumerable.value
    ensures r.Some? && d.configurable.Some? ==> r.value.configurable == d.configurable.value
    ensures r.Some? && IsAccessorFields(d) ==>
      (r.value.AccessorProp?
       && (d.getter.Some? ==> r.value.getter == d.getter) && (d.setter.Some? ==> r.value.setter == d.setter))
    ensures r.Some? && !IsAccessorFields(d) && IsDataFields(d) ==>
      (r.value.DataProp?
       && (d.value.Some? ==> r.value.value == d.value.value)
       && (d.writable.Some? ==> r.value.writable == d.writable.value))
    ensures r.Some? && cur.None? && !IsAccessorFields(d) ==>
      (r.value.DataProp? && r.value.value == d.value.GetOr(Undefined) && r.value.writable == d.writable.GetOr(false))
    ensures r.Some? && cur.None? ==>
      (r.value.enumerable == d.enumerable.GetOr(false) && r.value.configurable == d.configurable.GetOr(false))
  {
    if cur.None? then
      if !extensible then None
      else if IsAccessorFields(d) then
        Some(AccessorProp(d.getter, d.setter, d.enumerable.GetOr(false), d.configurable.GetOr(false)))
      else
        Some(DataProp(d.value.GetOr(Undefined), d.writable.GetOr(false), d.enumerable.GetOr(false), d.configurable.GetOr(false)))
    else if !Compatible(cur.value, d) then None
    else Some(Apply(cur.value, d))
  }

  // ------------------------------------------------------------ policies

  /** One resolved member: facet name, member name, raw expression, and the
      fields its policy computed. */
  datatype Descriptor = Descriptor(facet: string, name: string, expr: Value, policy: Facet, fields: Fields)

  /** The fields policy `f` writes for expression `expr`. The Descriptor's
      `configurable` and `enumerable` are declared fields, so a policy that
      leaves them unset leaves them `undefined`, that is false. */
  function PolicyFields(f: Facet, expr: Value): Fields {
    match f
    case VarFacet => Fields(Some(expr), Some(true), None, None, Some(true), Some(true))
    case ConstFacet => Fields(Some(expr), None, None, None, Some(true), Some(true))
    case OnceVarFacet => Fields(None, None, Some(ReturnDefault(expr)), Some(InstallValue), Some(true), Some(true))
    case GetFacet =>
      if expr.Fn? then Fields(None, None, Some(CallGetter(expr)), None, Some(true), Some(true))
      else Fields(Some(expr), None, None, None, Some(true), Some(true))
    case VirtualFacet =>
      if expr.Fn? then Fields(None, None, Some(CallGetter(expr)), Some(CallSetter(expr)), Some(true), Some(true))
      else Fields(Some(expr), None, None, None, Some(true), Some(true))
    case OnceFacet => Fields(None, None, Some(RunInitializer(expr)), Some(InstallValue), Some(false), Some(true))
    case ExtendFacet => Fields(None, None, None, None, Some(false), Some(false))
  }

  /** `new Descriptor(facet, name, expr)`; the contract states the property each
      policy installs on an object that does not have the member yet. */
  function NewDescriptor(f: Facet, name: string, expr: Value): (d: Descriptor)
    ensures d.name == name && d.expr == expr && d.facet == FacetName(f) && d.policy == f
    ensures !(d.fields.value.Some? && IsAccessorFields(d.fields))
    ensures f == VarFacet ==> Install(None, true, d.fields) == Some(DataProp(expr, true, true, true))
    ensures f == ConstFacet ==> Install(None, true, d.fields) == Some(DataProp(expr, false, true, true))
    ensures f == OnceVarFacet ==>
      Install(None, true, d.fields) == Some(AccessorProp(Some(ReturnDefault(expr)), Some(InstallValue), true, true))
    ensures f == GetFacet ==>
      Install(None, true, d.fields) ==
        (if expr.Fn? then Some(AccessorProp(Some(CallGetter(expr)), None, true, true))
         else Some(DataProp(expr, false, true, true)))
    ensures f == VirtualFacet ==>
      Install(None, true, d.fields) ==
        (if expr.Fn? then Some(AccessorProp(Some(CallGetter(expr)), Some(CallSetter(expr)), true, true))
         else Some(DataProp(expr, false, true, true)))
    ensures f == OnceFacet ==>
      Install(None, true, d.fields) == Some(AccessorProp(Some(RunInitializer(expr)), Some(InstallValue), false, true))
  {
    Descriptor(FacetName(f), name, expr, f, PolicyFields(f, expr))
  }

  // ---------------------------------------------------------------- define

  /** An object properties are defined on: its own properties in order, what
      reads of other names find along its prototype chain, and whether new
      properties may be added. */
  datatype Target = Target(own: Assoc<PropDesc>, inherited: map<string, Value>, extensible: bool)

  /** `object[name]`. An own accessor's getter is not run here. */
  function ReadMember(t: Target, name: string): Value {
    var p: Option<PropDesc> := Lookup(t.own, name);
    match p
    case Some(DataProp(v, _, _, _)) => v
    case Some(AccessorProp(_, _, _, _)) => Undefined
    case None => if name in t.inherited then t.inherited[name] else Undefined
  }

  /** The plain objects and arrays of a program, by id. */
  type Store = map<nat, Assoc<Value>>

  predicate StoreWellFormed(objs: Store) {
    forall o :: o in objs ==> KeysUnique(objs[o])
  }

  /** `v[k]` for objects whose members the model knows: stored objects and
      extension objects, whose lookups fall through to their parent. */
  function Member(objs: Store, v: Value, k: string): Value {
    match v
    case Ext(p, own) => if k in own then own[k] else Member(objs, p, k)
    case Obj(o) => if o in objs then Get(objs[o], k) else Undefined
    case _ => Undefined
  }

  /** The entries `for (name in v)` visits. */
  function EntriesOf(objs: Store, v: Value): Assoc<Value> {
    if v.Obj? && v.o in objs then objs[v.o] else []
  }

  /** The `$super` property of each function object, by function id. */
  type Supers = map<nat, Value>

  predicate HasSuper(supers: Supers, f: nat) {
    f in supers && Truthy(supers[f])
  }

  /** One entry of the extend loop: a declared function without `$super`
      gets the member `shown` under its name, when that is a function. An
      existing `$super` is never replaced, and nothing else is linked. */
  function LinkSuper(supers: Supers, e: Value, shown: Value): (r: Supers)
    ensures forall g :: HasSuper(supers, g) ==> g in r && r[g] == supers[g]
    ensures forall g :: g in r && (g !in supers || r[g] != supers[g]) ==> e == Fn(g) && r[g] == shown && shown.Fn?
    ensures e.Fn? && shown.Fn? ==> HasSuper(r, e.f)
  {
    if e.Fn? && !HasSuper(supers, e.f) && shown.Fn? then supers[e.f := shown] else supers
  }

  /** The loop of the extend facet's `define`: copy every declared entry onto
      the new object `own` and give a declared function without `$super` the
      member of the same name that the object under construction already
      shows, when that member is a function. */
  function ExtendEntries(objs: Store, entries: Assoc<Value>, parent: Value, own: map<string, Value>, supers: Supers)
    : (r: (map<string, Value>, Supers))
    requires KeysUnique(entries)
    ensures r.0.Keys == own.Keys + Keys(entries)
    ensures forall i :: 0 <= i < |entries| ==> r.0[entries[i].0] == entries[i].1
    ensures forall k :: k in own && k !in Keys(entries) ==> r.0[k] == own[k]
    decreases |entries|
  {
    if |entries| == 0 then (own, supers)
    else
      var k := entries[0].0;
      var e := entries[0].1;
      var supers' := LinkSuper(supers, e, Member(objs, Ext(parent, own), k));
      UniqueCons(entries);
      assert forall i :: 1 <= i < |entries| ==> entries[i] == entries[1..][i - 1];
      KeysTail(entries);
      ExtendEntries(objs, entries[1..], parent, own[k := e], supers')
  }

  /** The extend loop never overwrites an existing `$super`. */
  lemma {:induction false} ExtendKeepsSupers(objs: Store, entries: Assoc<Value>, parent: Value, own: map<string, Value>,
                                             supers: Supers, f: nat)
    requires KeysUnique(entries) && HasSuper(supers, f)
    ensures var r := ExtendEntries(objs, entries, parent, own, supers).1;
      f in r && r[f] == supers[f]
    decreases |entries|
  {
    if |entries| > 0 {
      var k := entries[0].0;
      var e := entries[0].1;
      var supers' := LinkSuper(supers, e, Member(objs, Ext(parent, own), k));
      UniqueCons(entries);
      ExtendKeepsSupers(objs, entries[1..], parent, own[k := e], supers', f);
    }
  }

  /** The facts the extend loop's recursive step relies on. */
  lemma ExtendTail(entries: Assoc<Value>, own: map<string, Value>)
    requires |entries| > 0 && KeysUnique(entries)
    requires forall i :: 0 <= i < |entries| ==> entries[i].0 !in own
    ensures KeysUnique(entries[1..])
    ensures forall i :: 0 <= i < |entries[1..]| ==> entries[1..][i].0 !in own[entries[0].0 := entries[0].1]
  {
    UniqueCons(entries);
    forall i | 0 <= i < |entries[1..]| ensures entries[1..][i].0 !in own[entries[0].0 := entries[0].1] {
      assert entries[1..][i] == entries[i + 1];
    }
  }

  /** Every `$super` the extend loop sets is the inherited function of a name
      under which that function is declared. */
  lemma {:induction false} ExtendNewSupers(objs: Store, entries: Assoc<Value>, parent: Value, own: map<string, Value>,
                                           supers: Supers, f: nat)
    requires KeysUnique(entries)
    requires forall i :: 0 <= i < |entries| ==> entries[i].0 !in own
    requires var r := ExtendEntries(objs, entries, parent, own, supers).1;
      f in r && (f !in supers || r[f] != supers[f])
    ensures var r := ExtendEntries(objs, entries, parent, own, supers).1;
      r[f].Fn? && exists i :: 0 <= i < |entries| && entries[i].1 == Fn(f) && r[f] == Member(objs, parent, entries[i].0)
    decreases |entries|
  {
    var k := entries[0].0;
    var e := entries[0].1;
    var tail := entries[1..];
    var shown := Member(objs, Ext(parent, own), k);
    assert shown == Member(objs, parent, k);
    var supers' := LinkSuper(supers, e, shown);
    ExtendTail(entries, own);
    var r := ExtendEntries(objs, tail, parent, own[k := e], supers').1;
    assert r == ExtendEntries(objs, entries, parent, own, supers).1;
    if f !in supers' || r[f] != supers'[f] {
      ExtendNewSupers(objs, tail, parent, own[k := e], supers', f);
      var i :| 0 <= i < |tail| && tail[i].1 == Fn(f) && r[f] == Member(objs, parent, tail[i].0);
      assert entries[i + 1] == tail[i];
    } else {
      ExtendKeepsSupers(objs, tail, parent, own[k := e], supers', f);
      assert entries[0].1 == Fn(f);
    }
  }

  /** Every declared function that overrides an inherited function ends up
      with a `$super`. */
  lemma {:induction false} ExtendLinksOverrides(objs: Store, entries: Assoc<Value>, parent: Value, own: map<string, Value>,
                                                supers: Supers, i: nat)
    requires KeysUnique(entries)
    requires forall j :: 0 <= j < |entries| ==> entries[j].0 !in own
    requires i < |entries| && entries[i].1.Fn? && Member(objs, parent, entries[i].0).Fn?
    ensures HasSuper(ExtendEntries(objs, entries, parent, own, supers).1, entries[i].1.f)
    decreases |entries|
  {
    var k := entries[0].0;
    var e := entries[0].1;
    var tail := entries[1..];
    var shown := Member(objs, Ext(parent, own), k);
    assert shown == Member(objs, parent, k);
    var supers' := LinkSuper(supers, e, shown);
    ExtendTail(entries, own);
    assert ExtendEntries(objs, tail, parent, own[k := e], supers').1 == ExtendEntries(objs, entries, parent, own, supers).1;
    if i == 0 {
      assert HasSuper(supers', e.f);
      ExtendKeepsSupers(objs, tail, parent, own[k := e], supers', e.f);
    } else {
      assert entries[i] == tail[i - 1];
      ExtendLinksOverrides(objs, tail, parent, own[k := e], supers', i - 1);
    }
  }

  /** The object the extend facet installs: chained to the target's current
      member of the same name (or to nothing), it shows the declared entries
      first and falls through to that member for every other name. */
  function ExtendObject(objs: Store, d: Descriptor, inherited: Value, supers: Supers): (r: (Value, Supers))
    requires StoreWellFormed(objs)
    ensures r.0.Ext? && r.0.parent == (if Truthy(inherited) then inherited else Undefined)
    ensures forall k :: (Member(objs, r.0, k) ==
      if k in Keys(EntriesOf(objs, d.expr)) then Get(EntriesOf(objs, d.expr), k) else Member(objs, r.0.parent, k))
  {
    var parent := if Truthy(inherited) then inherited else Undefined;
    var entries := EntriesOf(objs, d.expr);
    var m := ExtendEntries(objs, entries, parent, map[], supers);
    assert forall k :: k in Keys(entries) ==> m.0[k] == Get(entries, k) by {
      forall k | k in Keys(entries) ensures m.0[k] == Get(entries, k) {
        var i :| 0 <= i < |entries| && entries[i].0 == k;
        assert Lookup(entries, k) == Some(entries[i].1);
      }
    }
    (Ext(parent, m.0), m.1)
  }

  /** A Descriptor's `define(target)`: whether the property was installed, the
      target afterwards, and the `$super` table afterwards. Only the extend
      facet can throw, when the inherited member is a primitive. */
  function Define(objs: Store, d: Descriptor, t: Target, supers: Supers): (r: Result<(bool, Target, Supers)>)
    requires StoreWellFormed(objs)
    ensures d.policy != ExtendFacet ==> r.Ok? && r.value.2 == supers
    ensures r.Ok? && !r.value.0 ==> r.value.1 == t
    ensures r.Ok? && r.value.0 ==> (d.name in Keys(r.value.1.own)
      && r.value.1 == t.(own := Put(t.own, d.name, Lookup(r.value.1.own, d.name).value)))
    ensures r.Ok? ==> r.value.1.inherited == t.inherited && r.value.1.extensible == t.extensible
    ensures r.Err? <==> d.policy == ExtendFacet && Truthy(ReadMember(t, d.name)) && !CanBePrototype(ReadMember(t, d.name))
    ensures r.Err? ==> r.error == CannotInherit(d.name)
  {
    var cur := Lookup(t.own, d.name);
    if d.policy != ExtendFacet then
      match Install(cur, t.extensible, d.fields)
      case Some(p) => Ok((true, t.(own := Put(t.own, d.name, p)), supers))
      case None => Ok((false, t, supers))
    else
      var inherited := ReadMember(t, d.name);
      if Truthy(inherited) && !CanBePrototype(inherited) then Err(CannotInherit(d.name))
      else
        var (ext, supers') := ExtendObject(objs, d, inherited, supers);
        match Install(cur, t.extensible, Fields(Some(ext), None, None, None, None, None))
        case Some(p) => Ok((true, t.(own := Put(t.own, d.name, p)), supers'))
        case None => Ok((false, t, supers'))
  }

  /** `define` touches only the declared name: it installs the name or
      leaves the object as it was, and keeps keys unique. */
  lemma DefineFrame(objs: Store, d: Descriptor, t: Target, supers: Supers)
    requires StoreWellFormed(objs)
    ensures var r := Define(objs, d, t, supers);
      r.Ok? ==> (&& (r.value.0 ==> d.name in Keys(r.value.1.own))
                 && Keys(t.own) <= Keys(r.value.1.own) <= Keys(t.own) + {d.name}
                 && (forall k :: k != d.name ==> Lookup(r.value.1.own, k) == Lookup(t.own, k))
                 && (KeysUnique(t.own) ==> KeysUnique(r.value.1.own)))
  {
    var r := Define(objs, d, t, supers);
    if r.Ok? && r.value.0 {
      var p := Lookup(r.value.1.own, d.name).value;
      assert r.value.1.own == Put(t.own, d.name, p);
    }
  }

  /** On an extensible object that lacks the name, `define` installs it:
      the policy's property, or for the extend facet the chained object as a
      read-only value. */
  lemma DefineFresh(objs: Store, d: Descriptor, t: Target, supers: Supers)
    requires StoreWellFormed(objs)
    requires d.name !in Keys(t.own) && t.extensible
    ensures var r := Define(objs, d, t, supers);
      && (d.policy != ExtendFacet ==> r.value.0 && Lookup(r.value.1.own, d.name) == Install(None, true, d.fields))
      && (d.policy == ExtendFacet && r.Ok? ==>
            var ext := ExtendObject(objs, d, ReadMember(t, d.name), supers);
            r.value.0 && r.value.2 == ext.1 && Lookup(r.value.1.own, d.name) == Some(DataProp(ext.0, false, false, false)))
  {
  }

  /** The `$super` links made when an extend member is defined: an existing
      `$super` is kept, a declared function that overrides an inherited
      function gets one, and every new one is an inherited function. */
  lemma ExtendLinksSuper(objs: Store, d: Descriptor, inherited: Value, supers: Supers)
    requires StoreWellFormed(objs)
    ensures var r := ExtendObject(objs, d, inherited, supers);
      var entries := EntriesOf(objs, d.expr);
      && (forall f :: HasSuper(supers, f) ==> f in r.1 && r.1[f] == supers[f])
      && (forall k :: k in Keys(entries) && Get(entries, k).Fn? && Member(objs, r.0.parent, k).Fn? ==>
            HasSuper(r.1, Get(entries, k).f))
      && (forall f :: f in r.1 && (f !in supers || r.1[f] != supers[f]) ==>
            r.1[f].Fn? && exists k :: k in Keys(entries) && Get(entries, k) == Fn(f) && r.1[f] == Member(objs, r.0.parent, k))
  {
    var parent := if Truthy(inherited) then inherited else Undefined;
    var entries := EntriesOf(objs, d.expr);
    assert KeysUnique(entries);
    var r := ExtendEntries(objs, entries, parent, map[], supers).1;
    forall f | HasSuper(supers, f) ensures f in r && r[f] == supers[f] {
      ExtendKeepsSupers(objs, entries, parent, map[], supers, f);
    }
    forall f | f in r && (f !in supers || r[f] != supers[f])
      ensures r[f].Fn? && exists i :: 0 <= i < |entries| && entries[i].1 == Fn(f) && r[f] == Member(objs, parent, entries[i].0)
    {
      ExtendNewSupers(objs, entries, parent, map[], supers, f);
    }
    forall i | 0 <= i < |entries| && entries[i].1.Fn? && Member(objs, parent, entries[i].0).Fn?
      ensures HasSuper(r, entries[i].1.f)
    {
      ExtendLinksOverrides(objs, entries, parent, map[], supers, i);
    }
    forall i | 0 <= i < |entries| ensures Get(entries, entries[i].0) == entries[i].1 {
      assert Lookup(entries, entries[i].0) == Some(entries[i].1);
    }
  }

  /** `implementOn(object)`: define every descriptor in order. A define that
      returns false is reported in `failed` and the remaining members are
      still defined. */
  function ImplementOn(objs: Store, descs: seq<Descriptor>, t: Target, supers: Supers)
    : (r: Result<(Target, Supers, seq<string>)>)
    requires StoreWellFormed(objs)
    ensures r.Ok? ==> r.value.0.inherited == t.inherited && r.value.0.extensible == t.extensible
    ensures r.Err? ==> r.error.CannotInherit?
    decreases |descs|
  {
    if |descs| == 0 then Ok((t, supers, []))
    else
      match Define(objs, descs[0], t, supers)
      case Err(e) => Err(e)
      case Ok((ok, t1, s1)) =>
        match ImplementOn(objs, descs[1..], t1, s1)
        case Err(e) => Err(e)
        case Ok((t2, s2, failed)) =>
          Ok((t2, s2, if ok then failed else [descs[0].name] + failed))
  }

  /** Every member is either installed or reported: a failed `define` does
      not stop the loop. */
  lemma {:induction false} ImplementOnCovers(objs: Store, descs: seq<Descriptor>, t: Target, supers: Supers)
    requires StoreWellFormed(objs)
    ensures var r := ImplementOn(objs, descs, t, supers);
      r.Ok? ==> forall i :: 0 <= i < |descs| ==> descs[i].name in Keys(r.value.0.own) || descs[i].name in r.value.2
    decreases |descs|
  {
    var r := ImplementOn(objs, descs, t, supers);
    if |descs| > 0 && r.Ok? {
      DefineFrame(objs, descs[0], t, supers);
      var d1 := Define(objs, descs[0], t, supers).value;
      ImplementOnCovers(objs, descs[1..], d1.1, d1.2);
      ImplementOnFrame(objs, descs[1..], d1.1, d1.2);
      forall i | 0 < i < |descs| ensures descs[i] == descs[1..][i - 1] { }
    }
  }

  /** Only declared names are reported. */
  lemma {:induction false} ImplementOnReports(objs: Store, descs: seq<Descriptor>, t: Target, supers: Supers)
    requires StoreWellFormed(objs)
    ensures var r := ImplementOn(objs, descs, t, supers);
      r.Ok? ==> forall n :: n in r.value.2 ==> exists i :: 0 <= i < |descs| && descs[i].name == n
    decreases |descs|
  {
    var r := ImplementOn(objs, descs, t, supers);
    if |descs| > 0 && r.Ok? {
      var d1 := Define(objs, descs[0], t, supers).value;
      ImplementOnReports(objs, descs[1..], d1.1, d1.2);
      var rest := ImplementOn(objs, descs[1..], d1.1, d1.2).value;
      assert r.value.2 == if d1.0 then rest.2 else [descs[0].name] + rest.2;
      forall n | n in r.value.2 ensures exists i :: 0 <= i < |descs| && descs[i].name == n {
        if n !in rest.2 {
          assert descs[0].name == n;
        } else {
          var i :| 0 <= i < |descs[1..]| && descs[1..][i].name == n;
          assert descs[i + 1].name == n;
        }
      }
    }
  }

  /** Members not declared keep their property, and no property is lost. */
  lemma {:induction false} ImplementOnFrame(objs: Store, descs: seq<Descriptor>, t: Target, supers: Supers)
    requires StoreWellFormed(objs)
    ensures var r := ImplementOn(objs, descs, t, supers);
      r.Ok? ==> (&& Keys(t.own) <= Keys(r.value.0.own)
                 && (KeysUnique(t.own) ==> KeysUnique(r.value.0.own))
                 && forall k :: (forall i :: 0 <= i < |descs| ==> descs[i].name != k) ==>
                      Lookup(r.value.0.own, k) == Lookup(t.own, k))
    decreases |descs|
  {
    var r := ImplementOn(objs, descs, t, supers);
    if |descs| > 0 && r.Ok? {
      DefineFrame(objs, descs[0], t, supers);
      var d1 := Define(objs, descs[0], t, supers).value;
      ImplementOnFrame(objs, descs[1..], d1.1, d1.2);
      var rest := ImplementOn(objs, descs[1..], d1.1, d1.2).value;
      assert r.value.0 == rest.0;
      forall k | (forall i :: 0 <= i < |descs| ==> descs[i].name != k)
        ensures Lookup(r.value.0.own, k) == Lookup(t.own, k)
      {
        assert descs[0].name != k;
        forall i | 0 <= i < |descs[1..]| ensures descs[1..][i].name != k { assert descs[1..][i] == descs[i + 1]; }
      }
    }
  }

  /** On a fresh extensible object with no inherited members, every member
      of a list with distinct names is installed and nothing is reported. */
  lemma {:induction false} ImplementOnFresh(objs: Store, descs: seq<Descriptor>, t: Target, supers: Supers)
    requires StoreWellFormed(objs)
    requires t.extensible && t.inherited == map[] && KeysUnique(t.own)
    requires forall i, j :: 0 <= i < j < |descs| ==> descs[i].name != descs[j].name
    requires forall i :: 0 <= i < |descs| ==> descs[i].name !in Keys(t.own)
    ensures var r := ImplementOn(objs, descs, t, supers);
      && r.Ok? && r.value.2 == []
      && forall i :: 0 <= i < |descs| ==> descs[i].name in Keys(r.value.0.own)
    decreases |descs|
  {
    if |descs| > 0 {
      var d := descs[0];
      assert ReadMember(t, d.name) == Undefined;
      DefineFrame(objs, d, t, supers);
      DefineFresh(objs, d, t, supers);
      var r1 := Define(objs, d, t, supers);
      assert r1.Ok? && r1.value.0 by {
        if d.policy == ExtendFacet {
          var inh := ReadMember(t, d.name);
          var (ext, s') := ExtendObject(objs, d, inh, supers);
          assert Install(None, true, Fields(Some(ext), None, None, None, None, None)).Some?;
        }
      }
      var t1 := r1.value.1;
      forall i | 0 <= i < |descs[1..]| ensures descs[1..][i].name !in Keys(t1.own) {
        assert descs[1..][i] == descs[i + 1];
      }
      forall i, j | 0 <= i < j < |descs[1..]| ensures descs[1..][i].name != descs[1..][j].name {
        assert descs[1..][i] == descs[i + 1] && descs[1..][j] == descs[j + 1];
      }
      ImplementOnFresh(objs, descs[1..], t1, r1.value.2);
      ImplementOnFrame(objs, descs[1..], t1, r1.value.2);
    }
  }

  /** On such an object every member gets exactly the property its policy
      defines: `implementOn` of a fresh template installs the descriptors
      themselves, not just their names. */
  lemma {:induction false} ImplementOnFreshDefines(objs: Store, descs: seq<Descriptor>, t: Target, supers: Supers)
    requires StoreWellFormed(objs)
    requires t.extensible && t.inherited == map[] && KeysUnique(t.own)
    requires forall i, j :: 0 <= i < j < |descs| ==> descs[i].name != descs[j].name
    requires forall i :: 0 <= i < |descs| ==> descs[i].name !in Keys(t.own)
    ensures var r := ImplementOn(objs, descs, t, supers);
      r.Ok? && forall i :: 0 <= i < |descs| ==> DefinedFresh(objs, r.value.0.own, descs[i])
    decreases |descs|
  {
    if |descs| > 0 {
      var d := descs[0];
      var tail := descs[1..];
      DefineFrame(objs, d, t, supers);
      DefineFreshDefines(objs, d, t, supers);
      var r1 := Define(objs, d, t, supers).value;
      var t1 := r1.1;
      forall i | 0 <= i < |tail| ensures tail[i].name !in Keys(t1.own) && tail[i].name != d.name {
        assert tail[i] == descs[i + 1];
      }
      forall i, j | 0 <= i < j < |tail| ensures tail[i].name != tail[j].name {
        assert tail[i] == descs[i + 1] && tail[j] == descs[j + 1];
      }
      ImplementOnFreshDefines(objs, tail, t1, r1.2);
      ImplementOnFrame(objs, tail, t1, r1.2);
      var rest := ImplementOn(objs, tail, t1, r1.2).value;
      assert ImplementOn(objs, descs, t, supers).value.0 == rest.0;
      forall i | 0 <= i < |descs| ensures DefinedFresh(objs, rest.0.own, descs[i]) {
        if i > 0 { assert descs[i] == tail[i - 1]; }
      }
    }
  }

  lemma DefineFreshDefines(objs: Store, d: Descriptor, t: Target, supers: Supers)
    requires StoreWellFormed(objs)
    requires d.name !in Keys(t.own) && t.extensible && t.inherited == map[]
    ensures Define(objs, d, t, supers).Ok?
    ensures DefinedFresh(objs, Define(objs, d, t, supers).value.1.own, d)
  {
    assert ReadMember(t, d.name) == Undefined;
    DefineFresh(objs, d, t, supers);
    if d.policy == ExtendFacet {
      ExtendObjectIgnoresSupers(objs, d, Undefined, supers, map[]);
    }
  }

  /** The property `define` gives `d` on a fresh extensible object that
      inherits nothing: the policy's property, or for the extend facet a
      read-only extension object over nothing. */
  predicate DefinedFresh(objs: Store, own: Assoc<PropDesc>, d: Descriptor)
    requires StoreWellFormed(objs)
  {
    Lookup(own, d.name) ==
      if d.policy != ExtendFacet then Install(None, true, d.fields)
      else Some(DataProp(ExtendObject(objs, d, Undefined, map[]).0, false, false, false))
  }

  /** The extension object does not depend on the `$super` table. */
  lemma ExtendObjectIgnoresSupers(objs: Store, d: Descriptor, inherited: Value, s1: Supers, s2: Supers)
    requires StoreWellFormed(objs)
    ensures ExtendObject(objs, d, inherited, s1).0 == ExtendObject(objs, d, inherited, s2).0
  {
    var parent := if Truthy(inherited) then inherited else Undefined;
    var entries := EntriesOf(objs, d.expr);
    var m1 := ExtendEntries(objs, entries, parent, map[], s1).0;
    var m2 := ExtendEntries(objs, entries, parent, map[], s2).0;
    forall k | k in m1 ensures m2[k] == m1[k] {
      var i :| 0 <= i < |entries| && entries[i].0 == k;
    }
    assert m1 == m2;
  }

  // ------------------------------------------------------------ instances

  /** An instance of a type: the properties it owns (written values and
      values cached by once/oncevar) and how many user functions its member
      accesses have called. */
  datatype Instance = Instance(overrides: map<string, PropDesc>, invocations: nat)

  /** `type.instance()`: a new object that owns nothing yet. */
  const Fresh: Instance := Instance(map[], 0)

  /** Reading a member of an instance whose template owns `template`.
      `call` gives the value a user function returns when called. */
  function ReadProp(template: Assoc<PropDesc>, inst: Instance, name: string, call: Value -> Value)
    : (r: Result<(Value, Instance)>)
    ensures name in inst.overrides && inst.overrides[name].DataProp? ==> r == Ok((inst.overrides[name].value, inst))
    ensures r.Ok? ==> r.value.1.invocations <= inst.invocations + 1
    ensures r.Ok? ==> inst.overrides.Keys <= r.value.1.overrides.Keys
  {
    if name in inst.overrides then
      match inst.overrides[name]
      case DataProp(v, _, _, _) => Ok((v, inst))
      case AccessorProp(_, _, _, _) => Ok((Undefined, inst))
    else
      var p: Option<PropDesc> := Lookup(template, name);
      match p
      case None => Ok((Undefined, inst))
      case Some(DataProp(v, _, _, _)) => Ok((v, inst))
      case Some(AccessorProp(g, _, _, _)) =>
        match g
        case None => Ok((Undefined, inst))
        case Some(CallGetter(f)) => Ok((call(f), inst.(invocations := inst.invocations + 1)))
        case Some(ReturnDefault(e)) => Ok((e, inst))
        case Some(RunInitializer(init)) =>
          if !init.Fn? then Err(NotCallable(name))
          else
            var v := call(init);
            Ok((v, Instance(inst.overrides[name := DataProp(v, true, true, true)], inst.invocations + 1)))
  }

  /** Assigning `v` to a member of an instance (strict mode: a rejected
      assignment throws). */
  function WriteProp(template: Assoc<PropDesc>, inst: Instance, name: string, v: Value): (r: Result<Instance>)
    ensures r.Ok? ==> forall k :: k in inst.overrides && k != name ==> k in r.value.overrides && r.value.overrides[k] == inst.overrides[k]
    ensures r.Ok? ==> r.value.invocations <= inst.invocations + 1
  {
    if name in inst.overrides then
      match inst.overrides[name]
      case DataProp(_, w, e, c) =>
        if w then Ok(inst.(overrides := inst.overrides[name := DataProp(v, w, e, c)])) else Err(ReadOnly(name))
      case AccessorProp(_, _, _, _) => Err(ReadOnly(name))
    else
      var own := DataProp(v, true, true, true);
      var p: Option<PropDesc> := Lookup(template, name);
      match p
      case None => Ok(inst.(overrides := inst.overrides[name := own]))
      case Some(DataProp(_, w, _, _)) =>
        if w then Ok(inst.(overrides := inst.overrides[name := own])) else Err(ReadOnly(name))
      case Some(AccessorProp(_, s, _, _)) =>
        match s
        case None => Err(ReadOnly(name))
        case Some(InstallValue) => Ok(inst.(overrides := inst.overrides[name := own]))
        case Some(CallSetter(f)) => Ok(inst.(invocations := inst.invocations + 1))
  }

  /** The template property a descriptor of policy `f` gives member `name`. */
  predicate Installed(template: Assoc<PropDesc>, f: Facet, name: string, expr: Value) {
    Lookup(template, name) == Install(None, true, NewDescriptor(f, name, expr).fields)
  }

  /** once: the first read runs the initializer exactly once, caches its
      result as a writable, enumerable, configurable value and returns it; a
      second read returns the same value without running it again. */
  lemma OnceRunsOnce(template: Assoc<PropDesc>, name: string, init: Value, call: Value -> Value, inst: Instance)
    requires Installed(template, OnceFacet, name, init) && init.Fn?
    requires name !in inst.overrides
    ensures var r1 := ReadProp(template, inst, name, call);
      && r1.Ok? && r1.value.0 == call(init)
      && r1.value.1.invocations == inst.invocations + 1
      && r1.value.1.overrides[name] == DataProp(call(init), true, true, true)
      && ReadProp(template, r1.value.1, name, call) == Ok((call(init), r1.value.1))
  {
    var d := NewDescriptor(OnceFacet, name, init);
    assert Lookup(template, name) == Some(AccessorProp(Some(RunInitializer(init)), Some(InstallValue), false, true));
  }

  /** once: a write before any read installs the written value and the
      initializer is never run. */
  lemma OnceWriteBeforeRead(template: Assoc<PropDesc>, name: string, init: Value, call: Value -> Value, inst: Instance, v: Value)
    requires Installed(template, OnceFacet, name, init)
    requires name !in inst.overrides
    ensures var w := WriteProp(template, inst, name, v);
      && w.Ok? && w.value.invocations == inst.invocations
      && ReadProp(template, w.value, name, call) == Ok((v, w.value))
  {
    var d := NewDescriptor(OnceFacet, name, init);
    assert Lookup(template, name) == Some(AccessorProp(Some(RunInitializer(init)), Some(InstallValue), false, true));
  }

  /** once with an initializer that is not a function: reading fails. */
  lemma OnceNeedsFunction(template: Assoc<PropDesc>, name: string, init: Value, call: Value -> Value, inst: Instance)
    requires Installed(template, OnceFacet, name, init) && !init.Fn?
    requires name !in inst.overrides
    ensures ReadProp(template, inst, name, call) == Err(NotCallable(name))
  {
    var d := NewDescriptor(OnceFacet, name, init);
    assert Lookup(template, name) == Some(AccessorProp(Some(RunInitializer(init)), Some(InstallValue), false, true));
  }

  /** oncevar: reads answer the default until a write, which replaces the
      accessor by a writable, enumerable, configurable value holding exactly
      the written value; later writes update it. */
  lemma OnceVarOverride(template: Assoc<PropDesc>, name: string, expr: Value, call: Value -> Value, inst: Instance, v: Value, v2: Value)
    requires Installed(template, OnceVarFacet, name, expr)
    requires name !in inst.overrides
    ensures ReadProp(template, inst, name, call) == Ok((expr, inst))
    ensures var w := WriteProp(template, inst, name, v);
      && w.Ok? && w.value.overrides[name] == DataProp(v, true, true, true)
      && ReadProp(template, w.value, name, call) == Ok((v, w.value))
      && var w2 := WriteProp(template, w.value, name, v2);
      && w2.Ok? && ReadProp(template, w2.value, name, call) == Ok((v2, w2.value))
  {
    var d := NewDescriptor(OnceVarFacet, name, expr);
    assert Lookup(template, name) == Some(AccessorProp(Some(ReturnDefault(expr)), Some(InstallValue), true, true));
  }

  /** const: reads answer the declared expression and a write is rejected,
      leaving the instance as it was. */
  lemma ConstIsReadOnly(template: Assoc<PropDesc>, name: string, expr: Value, call: Value -> Value, inst: Instance, v: Value)
    requires Installed(template, ConstFacet, name, expr)
    requires name !in inst.overrides
    ensures ReadProp(template, inst, name, call) == Ok((expr, inst))
    ensures WriteProp(template, inst, name, v) == Err(ReadOnly(name))
  {
    var d := NewDescriptor(ConstFacet, name, expr);
    assert Lookup(template, name) == Some(DataProp(expr, false, true, true));
  }

  /** var: reads answer the declared value until a write, then the written one. */
  lemma VarIsWritable(template: Assoc<PropDesc>, name: string, expr: Value, call: Value -> Value, inst: Instance, v: Value)
    requires Installed(template, VarFacet, name, expr)
    requires name !in inst.overrides
    ensures ReadProp(template, inst, name, call) == Ok((expr, inst))
    ensures var w := WriteProp(template, inst, name, v);
      w.Ok? && ReadProp(template, w.value, name, call) == Ok((v, w.value))
  {
    var d := NewDescriptor(VarFacet, name, expr);
    assert Lookup(template, name) == Some(DataProp(expr, true, true, true));
  }

  /** get with a function: each read calls it; writes are rejected. */
  lemma GetCallsGetter(template: Assoc<PropDesc>, name: string, fn: Value, call: Value -> Value, inst: Instance, v: Value)
    requires Installed(template, GetFacet, name, fn) && fn.Fn?
    requires name !in inst.overrides
    ensures ReadProp(template, inst, name, call) == Ok((call(fn), inst.(invocations := inst.invocations + 1)))
    ensures WriteProp(template, inst, name, v) == Err(ReadOnly(name))
  {
    var d := NewDescriptor(GetFacet, name, fn);
    assert Lookup(template, name) == Some(AccessorProp(Some(CallGetter(fn)), None, true, true));
  }

  /** virtual with a function: the same function serves reads and writes,
      and a write installs nothing on the instance. */
  lemma VirtualSharesFunction(template: Assoc<PropDesc>, name: string, fn: Value, call: Value -> Value, inst: Instance, v: Value)
    requires Installed(template, VirtualFacet, name, fn) && fn.Fn?
    requires name !in inst.overrides
    ensures ReadProp(template, inst, name, call) == Ok((call(fn), inst.(invocations := inst.invocations + 1)))
    ensures WriteProp(template, inst, name, v) == Ok(inst.(invocations := inst.invocations + 1))
  {
    var d := NewDescriptor(VirtualFacet, name, fn);
    assert Lookup(template, name) == Some(AccessorProp(Some(CallGetter(fn)), Some(CallSetter(fn)), true, true));
  }
}
