/*
 * JavaScript values, strings and ordered property lists as the composition
 * engine observes them.
 */
module Values {

  datatype Option<T> = None | Some(value: T) {
    function GetOr(default: T): T {
      match this
      case Some(v) => v
      case None => default
    }
  }

  /** Primitive values. Numbers are modelled as integers. */
  datatype Prim = Null | Bool(b: bool) | Num(n: int) | Str(s: string)

  /** A JavaScript value. Plain objects and arrays live in an object store and
      are referenced by id; a template is referenced by the id of its Type; an
      object built by the extend facet carries its parent and its own entries. */
  datatype Value =
    | Undefined
    | Prim(p: Prim)
    | Fn(f: nat)
    | Obj(o: nat)
    | Proto(t: nat)
    | Ext(parent: Value, own: map<string, Value>)

  /** JavaScript truthiness: `undefined`, `null`, `false`, `0` and `""` are falsy. */
  predicate Truthy(v: Value) {
    match v
    case Undefined => false
    case Prim(p) =>
      (match p
       case Null => false
       case Bool(b) => b
       case Num(n) => n != 0
       case Str(s) => s != "")
    case _ => true
  }

  /** `typeof v == "object"`: null and every non-function object. */
  predicate IsTypeofObject(v: Value) {
    v == Prim(Null) || v.Obj? || v.Proto? || v.Ext?
  }

  /** Values `Object.create` accepts as a prototype: objects, functions and null. */
  predicate CanBePrototype(v: Value) {
    IsTypeofObject(v) || v.Fn?
  }

  /** Everything that can go wrong while compiling or using a type. */
  datatype Error =
    | FacetNotDefined(facet: string)        // `Facet "f" is not defined.`
    | DefaultFacetMissing                   // the registry has no `var` policy
    | NotFound(name: string)                // `"name" not found.`
    | TypeCycle                             // `Type cycle detected.`
    | NotAType(name: string)                // a mixin name resolved to a value without a Type
    | Implementing(typeName: string, mixinName: string, cause: Error)
    | MixinListNotString                    // a truthy `type$` that is not a string
    | ScopeNotCompiled                      // `definedIn` read from a scope without a Type
    | ScopeLoop                             // the enclosing-scope chain returns to itself
    | EmptyTypeName                         // first character of an empty type name
    | NullMember(key: string)               // `Object.hasOwn(null, ...)`
    | CannotInherit(name: string)           // `Object.create` of a primitive
    | NotCallable(name: string)             // a once initializer that is not a function
    | ReadOnly(name: string)                // assignment to a read-only member

  datatype Result<T> = Ok(value: T) | Err(error: Error)

  // ---------------------------------------------------------------- strings

  /** `s.indexOf(c)`: the first position of `c`, or -1. */
  function IndexOf(s: string, c: char): (i: int)
    ensures -1 <= i < |s|
    ensures i == -1 <==> c !in s
    ensures 0 <= i ==> s[i] == c && c !in s[..i]
  {
    if |s| == 0 then -1
    else if s[0] == c then 0
    else
      var j := IndexOf(s[1..], c);
      if j < 0 then -1
      else
        assert s[..j + 1] == [s[0]] + s[1..][..j];
        j + 1
  }

  function Clamp(x: int, n: nat): (r: nat)
    ensures r <= n
    ensures 0 <= x <= n ==> r == x
    ensures x < 0 ==> r == 0
  {
    if x < 0 then 0 else if x > n then n else x
  }

  /** `s.substring(a, b)`: both ends clamped into the string, then swapped if
      out of order, as JavaScript does. */
  function Substring(s: string, a: int, b: int): (r: string)
    ensures 0 <= a <= b <= |s| ==> r == s[a..b]
    ensures 0 <= b <= a <= |s| ==> r == s[b..a]
    ensures b < 0 ==> r == s[..Clamp(a, |s|)]
    ensures a < 0 ==> r == s[..Clamp(b, |s|)]
    ensures b >= |s| ==> r == s[Clamp(a, |s|)..]
    ensures a >= |s| ==> r == s[Clamp(b, |s|)..]
  {
    var x := Clamp(a, |s|);
    var y := Clamp(b, |s|);
    if x <= y then s[x..y] else s[y..x]
  }

  /** The order of the two bounds does not matter. */
  lemma SubstringSwap(s: string, a: int, b: int)
    ensures Substring(s, a, b) == Substring(s, b, a)
  {
  }

  predicate EndsWith(s: string, c: char) {
    |s| > 0 && s[|s| - 1] == c
  }

  /** `s.split(" ")`: the pieces between single spaces, empty pieces included. */
  function Split(s: string): (parts: seq<string>)
    ensures |parts| >= 1
    ensures forall i :: 0 <= i < |parts| ==> ' ' !in parts[i]
    decreases |s|
  {
    var i := IndexOf(s, ' ');
    if i < 0 then [s] else [s[..i]] + Split(s[i + 1..])
  }

  /** `parts.join(" ")`. */
  function Join(parts: seq<string>): string
    requires |parts| >= 1
  {
    if |parts| == 1 then parts[0] else parts[0] + " " + Join(parts[1..])
  }

  /** Splitting on spaces loses nothing: joining the pieces gives the string back. */
  lemma {:induction false} JoinSplit(s: string)
    ensures Join(Split(s)) == s
    decreases |s|
  {
    var i := IndexOf(s, ' ');
    if i >= 0 {
      var tail := s[i + 1..];
      JoinSplit(tail);
      JoinCons(s[..i], Split(tail));
      SplitAround(s, i);
    }
  }

  lemma JoinCons(p: string, rest: seq<string>)
    requires |rest| >= 1
    ensures Join([p] + rest) == p + " " + Join(rest)
  {
    assert ([p] + rest)[1..] == rest;
  }

  lemma SplitAround(s: string, i: nat)
    requires i < |s| && s[i] == ' '
    ensures s == s[..i] + " " + s[i + 1..]
  {
    assert s[i..] == " " + s[i + 1..];
    assert s == s[..i] + s[i..];
  }

  /** And pieces without spaces are recovered by splitting their join. */
  lemma {:induction false} SplitJoin(parts: seq<string>)
    requires |parts| >= 1
    requires forall i :: 0 <= i < |parts| ==> ' ' !in parts[i]
    ensures Split(Join(parts)) == parts
  {
    if |parts| > 1 {
      var s := Join(parts);
      var rest := Join(parts[1..]);
      assert s == parts[0] + " " + rest;
      assert s[|parts[0]|] == ' ';
      assert s[..|parts[0]|] == parts[0];
      assert IndexOf(s, ' ') == |parts[0]|;
      assert s[|parts[0]| + 1..] == rest;
      SplitJoin(parts[1..]);
    } else {
      assert IndexOf(parts[0], ' ') == -1;
    }
  }

  // ------------------------------------------------ ordered property lists

  /** An object's own string-keyed properties in insertion order. */
  type Assoc<V> = seq<(string, V)>

  predicate KeysUnique<V>(a: Assoc<V>) {
    forall i, j :: 0 <= i < j < |a| ==> a[i].0 != a[j].0
  }

  function Keys<V>(a: Assoc<V>): (ks: set<string>)
    ensures forall i :: 0 <= i < |a| ==> a[i].0 in ks
    ensures forall k :: k in ks ==> exists i :: 0 <= i < |a| && a[i].0 == k
  {
    if |a| == 0 then {}
    else
      var rest := Keys(a[1..]);
      assert forall i :: 1 <= i < |a| ==> a[i] == a[1..][i - 1];
      {a[0].0} + rest
  }

  lemma KeysTail<V>(a: Assoc<V>)
    requires |a| > 0
    ensures Keys(a) == {a[0].0} + Keys(a[1..])
  {
  }

  lemma UniqueCons<V>(a: Assoc<V>)
    requires |a| > 0
    ensures KeysUnique(a) <==> a[0].0 !in Keys(a[1..]) && KeysUnique(a[1..])
  {
    if a[0].0 !in Keys(a[1..]) && KeysUnique(a[1..]) {
      forall i, j | 0 <= i < j < |a| ensures a[i].0 != a[j].0 {
        if i > 0 { assert a[i].0 == a[1..][i - 1].0 && a[j].0 == a[1..][j - 1].0; }
        else { assert a[j].0 == a[1..][j - 1].0; }
      }
    }
    if KeysUnique(a) {
      forall i, j | 0 <= i < j < |a[1..]| ensures a[1..][i].0 != a[1..][j].0 {
        assert a[1..][i] == a[i + 1] && a[1..][j] == a[j + 1];
      }
      forall i | 0 <= i < |a[1..]| ensures a[1..][i].0 != a[0].0 {
        assert a[1..][i] == a[i + 1];
      }
    }
  }

  /** `obj[k]` on own properties: the entry stored under `k`, if any. */
  function Lookup<V(==)>(a: Assoc<V>, k: string): (r: Option<V>)
    ensures r.Some? <==> k in Keys(a)
    ensures KeysUnique(a) ==> forall i :: 0 <= i < |a| && a[i].0 == k ==> r == Some(a[i].1)
  {
    if |a| == 0 then None
    else if a[0].0 == k then Some(a[0].1)
    else
      var r := Lookup(a[1..], k);
      KeysTail(a);
      assert forall i :: 1 <= i < |a| ==> a[i] == a[1..][i - 1];
      UniqueCons(a);
      r
  }

  function PutEntry<V>(a: Assoc<V>, k: string, v: V): Assoc<V> {
    if |a| == 0 then [(k, v)]
    else if a[0].0 == k then [(k, v)] + a[1..]
    else [a[0]] + PutEntry(a[1..], k, v)
  }

  lemma {:induction false} PutLookup<V>(a: Assoc<V>, k: string, v: V)
    ensures Lookup(PutEntry(a, k, v), k) == Some(v)
    ensures forall k' :: k' != k ==> Lookup(PutEntry(a, k, v), k') == Lookup(a, k')
  {
    if |a| > 0 && a[0].0 != k {
      PutLookup(a[1..], k, v);
      assert PutEntry(a, k, v)[1..] == PutEntry(a[1..], k, v);
    }
  }

  lemma {:induction false} PutKeys<V>(a: Assoc<V>, k: string, v: V)
    ensures Keys(PutEntry(a, k, v)) == Keys(a) + {k}
  {
    if |a| > 0 {
      var r := PutEntry(a, k, v);
      KeysTail(a);
      KeysTail(r);
      if a[0].0 == k {
        assert r[1..] == a[1..];
      } else {
        PutKeys(a[1..], k, v);
        assert r[1..] == PutEntry(a[1..], k, v);
      }
    }
  }

  lemma {:induction false} PutUnique<V>(a: Assoc<V>, k: string, v: V)
    ensures KeysUnique(a) ==> KeysUnique(PutEntry(a, k, v))
  {
    if |a| > 0 && KeysUnique(a) {
      var r := PutEntry(a, k, v);
      UniqueCons(a);
      UniqueCons(r);
      if a[0].0 == k {
        assert r[1..] == a[1..];
      } else {
        PutUnique(a[1..], k, v);
        PutKeys(a[1..], k, v);
        assert r[1..] == PutEntry(a[1..], k, v);
      }
    }
  }

  lemma {:induction false} PutAppends<V>(a: Assoc<V>, k: string, v: V)
    ensures k !in Keys(a) ==> PutEntry(a, k, v) == a + [(k, v)]
  {
    if |a| > 0 && k !in Keys(a) {
      KeysTail(a);
      PutAppends(a[1..], k, v);
      assert a == [a[0]] + a[1..];
    }
  }

  lemma {:induction false} PutEntries<V>(a: Assoc<V>, k: string, v: V)
    ensures forall i :: 0 <= i < |PutEntry(a, k, v)| ==> PutEntry(a, k, v)[i] in a || PutEntry(a, k, v)[i] == (k, v)
  {
    var r := PutEntry(a, k, v);
    if |a| > 0 {
      if a[0].0 == k {
        forall i | 1 <= i < |r| ensures r[i] in a { assert r[i] == a[i]; }
      } else {
        PutEntries(a[1..], k, v);
        var t := PutEntry(a[1..], k, v);
        forall i | 1 <= i < |r| ensures r[i] in a || r[i] == (k, v) {
          assert r[i] == t[i - 1];
          if r[i] in a[1..] {
            var j :| 0 <= j < |a[1..]| && a[1..][j] == r[i];
            assert a[j + 1] == r[i];
          }
        }
      }
    }
  }

  /** `obj[k] = v`: an existing key keeps its position, a new key goes last. */
  function Put<V(==)>(a: Assoc<V>, k: string, v: V): (r: Assoc<V>)
    ensures Lookup(r, k) == Some(v)
    ensures forall k' :: k' != k ==> Lookup(r, k') == Lookup(a, k')
    ensures Keys(r) == Keys(a) + {k}
    ensures KeysUnique(a) ==> KeysUnique(r)
    ensures k !in Keys(a) ==> r == a + [(k, v)]
    ensures forall i :: 0 <= i < |r| ==> r[i] in a || r[i] == (k, v)
  {
    PutEntries(a, k, v);
    PutLookup(a, k, v);
    PutKeys(a, k, v);
    PutUnique(a, k, v);
    PutAppends(a, k, v);
    PutEntry(a, k, v)
  }

  /** `delete obj[k]`. */
  function Remove<V(==)>(a: Assoc<V>, k: string): (r: Assoc<V>)
    ensures Lookup(r, k) == None
    ensures forall k' :: k' != k ==> Lookup(r, k') == Lookup(a, k')
    ensures Keys(r) == Keys(a) - {k}
    ensures KeysUnique(a) ==> KeysUnique(r)
  {
    if |a| == 0 then []
    else if a[0].0 == k then
      KeysTail(a);
      UniqueCons(a);
      Remove(a[1..], k)
    else
      var t := Remove(a[1..], k);
      var r := [a[0]] + t;
      KeysTail(a);
      KeysTail(r);
      assert r[1..] == t;
      UniqueCons(a);
      UniqueCons(r);
      r
  }

  /** A property read on an object's own entries: `undefined` when absent. */
  function Get(a: Assoc<Value>, k: string): Value {
    Lookup(a, k).GetOr(Undefined)
  }
}
