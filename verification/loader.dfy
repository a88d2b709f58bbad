/*
 * The loader's dependency barrier: a specification declares the files it
 * needs with `use$name` keys; the loader dispatches one request per pending
 * file, patches the specification as each file arrives, and compiles it when
 * nothing is pending any more. Fetching and module import are left out:
 * arrivals are an explicit sequence of (name, payload) events.
 */
module Loader {
  import opened Values
  import Compiler

  /** The loader's `#files`: dependency name -> uri. */
  datatype Loader = Loader(files: map<string, Value>)

  /** The entry of `n` in a map, if any. */
  function At(m: map<string, Value>, n: string): Option<Value> {
    if n in m then Some(m[n]) else None
  }

  /** The specification being loaded: its own string-keyed properties and the
      name stored under `Symbol.toStringTag`. */
  datatype Source = Source(props: Assoc<Value>, tag: string)

  /** What one arrival leaves behind; `finished` holds the properties and the
      name handed to the compiler when `finish` ran. */
  datatype Arrival = Arrival(loader: Loader, source: Source, finished: Option<(Assoc<Value>, string)>)

  // ------------------------------------------------------------ parse

  /** The dependency a declaration key names: the text after the first `$`
      when the text before it is `use`. A `$` in first position is skipped
      (`if (index)`), and so is a key without `$`, whose facet part
      `substring(0, -1)` is empty. */
  function DependencyOf(decl: string): (r: Option<string>)
    ensures r.Some? <==> |decl| >= 4 && decl[..4] == "use$"
    ensures r.Some? ==> r.value == decl[4..]
  {
    var index := IndexOf(decl, '$');
    if index != 0 && Substring(decl, 0, index) == "use" then
      assert index == 3;
      assert decl[..4] == decl[..3] + [decl[3]];
      Some(Substring(decl, index + 1, |decl|))
    else
      None
  }

  /** The declaration key of dependency `name`. */
  function UseKey(name: string): string {
    "use$" + name
  }

  lemma DependencyOfUseKey(name: string)
    ensures DependencyOf(UseKey(name)) == Some(name)
  {
    assert UseKey(name)[..4] == "use$" && UseKey(name)[4..] == name;
  }

  /** `parse(source)`: every `use$name` key records its value as the uri of
      dependency `name`; every other key is ignored. */
  function Parse(files: map<string, Value>, props: Assoc<Value>): (r: map<string, Value>)
    ensures files.Keys <= r.Keys
    decreases |props|
  {
    if |props| == 0 then files
    else
      match DependencyOf(props[0].0)
      case None => Parse(files, props[1..])
      case Some(name) => Parse(files[name := props[0].1], props[1..])
  }

  /** Parsing records exactly the declared dependencies: a name is pending
      with the uri of its `use$` key when the specification declares it, and
      keeps what it had otherwise. */
  lemma {:induction false} ParseRecords(files: map<string, Value>, props: Assoc<Value>, n: string)
    requires KeysUnique(props)
    ensures At(Parse(files, props), n) ==
      if UseKey(n) in Keys(props) then Lookup(props, UseKey(n)) else At(files, n)
    decreases |props|
  {
    if |props| > 0 {
      KeysTail(props);
      UniqueCons(props);
      var rest := props[1..];
      var k := props[0].0;
      assert Lookup(props, k) == Some(props[0].1);
      if UseKey(n) != k {
        assert Lookup(props, UseKey(n)) == Lookup(rest, UseKey(n));
      }
      match DependencyOf(k)
      case None =>
        ParseRecords(files, rest, n);
        DependencyOfUseKey(n);
      case Some(name) =>
        ParseRecords(files[name := props[0].1], rest, n);
        DependencyOfUseKey(n);
        assert k == UseKey(name);
        if name == n {
          assert UseKey(n) !in Keys(rest);
        }
    }
  }

  // ------------------------------------------------------------ compile

  /** `compile(source, name)` up to the point where it waits: store the name
      (an absent or empty one as ""), parse, and dispatch one request per
      pending file. The requests are returned as a name -> uri map; nothing
      is compiled here. */
  function Start(l: Loader, props: Assoc<Value>, name: Option<string>): (r: (Loader, Source, map<string, Value>))
  {
    var files := Parse(l.files, props);
    (Loader(files), Source(props, name.GetOr("")), files)
  }

  /** `compile` requests exactly the files pending before and the ones the
      specification declares with `use$`. */
  lemma StartRequests(l: Loader, props: Assoc<Value>, name: Option<string>)
    ensures forall n :: n in Start(l, props, name).2 <==> n in l.files || UseKey(n) in Keys(props)
  {
    ParsePending(l.files, props);
  }

  /** Which names parsing leaves pending: the ones pending before and the
      ones a `use$` key declares; uniqueness of keys is not needed here. */
  lemma {:induction false} ParsePending(files: map<string, Value>, props: Assoc<Value>)
    ensures forall n :: n in Parse(files, props) <==> n in files || UseKey(n) in Keys(props)
    decreases |props|
  {
    if |props| > 0 {
      KeysTail(props);
      var k := props[0].0;
      match DependencyOf(k)
      case None =>
        ParsePending(files, props[1..]);
        forall n ensures UseKey(n) != k {
          DependencyOfUseKey(n);
        }
      case Some(name) =>
        ParsePending(files[name := props[0].1], props[1..]);
        forall n ensures UseKey(n) == k <==> n == name {
          DependencyOfUseKey(n);
        }
    }
  }

  /** Without `use$` declarations and with nothing pending before, `compile`
      dispatches no request, so no arrival can ever reach `finish`. */
  lemma {:induction false} StartWithoutDependencies(l: Loader, props: Assoc<Value>, name: Option<string>)
    requires l.files == map[]
    requires forall i :: 0 <= i < |props| ==> DependencyOf(props[i].0).None?
    ensures Start(l, props, name).2 == map[] && Start(l, props, name).0.files == map[]
    decreases |props|
  {
    if |props| > 0 {
      StartWithoutDependencies(l, props[1..], name);
    }
  }

  // ------------------------------------------------------------ receive

  /** `delete this.#files[name]` and the emptiness test after it: the files
      still pending, and whether `finish` runs. */
  function Arrive(l: Loader, name: string): (r: (Loader, bool))
    ensures r.0.files.Keys == l.files.Keys - {name}
    ensures forall n :: n != name ==> At(r.0.files, n) == At(l.files, n)
    ensures r.1 <==> l.files.Keys <= {name}
  {
    var files := l.files - {name};
    if |files| == 0 then
      (Loader(files), true)
    else
      assert files.Keys != {};
      (Loader(files), false)
  }

  /** `receive(source, name, payload)`: store the payload under the bare name,
      delete the `use$name` key, drop the pending entry, and `finish` when
      nothing is pending. */
  function Receive(l: Loader, src: Source, name: string, payload: Value): (r: Arrival)
    ensures r.source == Source(Patch(src.props, name, payload), src.tag)
    ensures Lookup(r.source.props, name) == Some(payload) && UseKey(name) !in Keys(r.source.props)
    ensures r.loader == Arrive(l, name).0
    ensures r.finished.Some? <==> l.files.Keys <= {name}
    ensures r.finished.Some? ==> r.finished.value == (r.source.props, src.tag)
  {
    var a := Arrive(l, name);
    var source := Source(Patch(src.props, name, payload), src.tag);
    Arrival(a.0, source, if a.1 then Some(Finish(source)) else None)
  }

  /** `source[name] = module; delete source["use$" + name]`: the payload
      replaces the declaration, and every other property is kept. */
  function Patch(props: Assoc<Value>, name: string, payload: Value): (r: Assoc<Value>)
    ensures Lookup(r, name) == Some(payload)
    ensures UseKey(name) !in Keys(r)
    ensures forall k :: k != name && k != UseKey(name) ==> Lookup(r, k) == Lookup(props, k)
    ensures KeysUnique(props) ==> KeysUnique(r)
  {
    assert name != UseKey(name) by { assert |UseKey(name)| == |name| + 4; }
    Remove(Put(props, name, payload), UseKey(name))
  }

  /** `finish(source)`: a specification is always an object, so it is handed
      to the compiler together with the name stored when loading started. */
  function Finish(src: Source): (Assoc<Value>, string) {
    (src.props, src.tag)
  }

  // ------------------------------------------------------------ the barrier

  /** `finish` ran after arrival number `at`, compiling under `name`. */
  datatype Fired = Fired(at: nat, name: string)

  /** The pending files and the `finish` calls of a sequence of arrivals,
      numbered from `from`, for a specification stored under `tag`; each
      step is the `Arrive` part of `Receive`. */
  function Run(l: Loader, tag: string, events: seq<(string, Value)>, from: nat): (r: (Loader, seq<Fired>))
    decreases |events|
  {
    if |events| == 0 then (l, [])
    else
      var a := Arrive(l, events[0].0);
      var rest := Run(a.0, tag, events[1..], from + 1);
      (rest.0, if a.1 then [Fired(from, tag)] + rest.1 else rest.1)
  }

  /** The properties of a sequence of arrivals: payloads stored in order. */
  function PatchAll(props: Assoc<Value>, events: seq<(string, Value)>): (r: Assoc<Value>)
    decreases |events|
  {
    if |events| == 0 then props else PatchAll(Patch(props, events[0].0, events[0].1), events[1..])
  }

  /** Every `finish` a sequence of arrivals causes happens at one of them and
      uses the stored name. */
  lemma {:induction false} RunFiresWithTag(l: Loader, tag: string, events: seq<(string, Value)>, from: nat)
    ensures forall f :: f in Run(l, tag, events, from).1 ==> from <= f.at < from + |events| && f.name == tag
    decreases |events|
  {
    if |events| > 0 {
      var a := Arrive(l, events[0].0);
      RunFiresWithTag(a.0, tag, events[1..], from + 1);
      var rest := Run(a.0, tag, events[1..], from + 1).1;
      assert Run(l, tag, events, from).1 == if a.1 then [Fired(from, tag)] + rest else rest;
    }
  }

  /** The names of a sequence of arrivals. */
  function Names(events: seq<(string, Value)>): (r: set<string>)
    ensures |events| > 0 ==> events[0].0 in r
  {
    if |events| == 0 then {} else {events[0].0} + Names(events[1..])
  }

  predicate DistinctNames(events: seq<(string, Value)>) {
    forall i, j :: 0 <= i < j < |events| ==> events[i].0 != events[j].0
  }

  lemma {:induction false} NamesDistinct(events: seq<(string, Value)>, n: string)
    requires n in Names(events)
    ensures exists i :: 0 <= i < |events| && events[i].0 == n
    decreases |events|
  {
    if events[0].0 != n {
      NamesDistinct(events[1..], n);
      var i :| 0 <= i < |events[1..]| && events[1..][i].0 == n;
      assert events[i + 1].0 == n;
    }
  }

  lemma NamesCons(events: seq<(string, Value)>)
    requires |events| > 0 && DistinctNames(events)
    ensures Names(events) == {events[0].0} + Names(events[1..])
    ensures events[0].0 !in Names(events[1..])
    ensures DistinctNames(events[1..])
  {
    var rest := events[1..];
    if events[0].0 in Names(rest) {
      NamesDistinct(rest, events[0].0);
      assert false;
    }
    forall i, j | 0 <= i < j < |rest| ensures rest[i].0 != rest[j].0 {
      assert rest[i] == events[i + 1] && rest[j] == events[j + 1];
    }
  }

  /** The barrier: when every pending file arrives exactly once, in any
      order, `finish` runs exactly once, after the last arrival, with the
      name stored when loading started. */
  lemma {:induction false} FiresOnceAtLast(l: Loader, tag: string, events: seq<(string, Value)>, from: nat)
    requires |events| > 0 && DistinctNames(events)
    requires l.files.Keys == Names(events)
    ensures Run(l, tag, events, from).1 == [Fired(from + |events| - 1, tag)]
    decreases |events|
  {
    NamesCons(events);
    var a := Arrive(l, events[0].0);
    if |events| == 1 {
      assert a.1;
      assert Run(a.0, tag, events[1..], from + 1).1 == [];
    } else {
      assert events[1].0 in Names(events[1..]);
      assert !a.1;
      assert a.0.files.Keys == Names(events[1..]);
      FiresOnceAtLast(a.0, tag, events[1..], from + 1);
    }
  }

  lemma UseKeyInjective(a: string, b: string)
    requires UseKey(a) == UseKey(b)
    ensures a == b
  {
    assert a == UseKey(a)[4..] && b == UseKey(b)[4..];
  }

  /** No dependency is named like the `use$` key of another. */
  predicate NoUseKeyClash(events: seq<(string, Value)>) {
    forall i, j :: 0 <= i < |events| && 0 <= j < |events| ==> events[i].0 != UseKey(events[j].0)
  }

  /** Arrivals for other names leave a property alone. */
  lemma {:induction false} PatchAllKeeps(props: Assoc<Value>, events: seq<(string, Value)>, k: string)
    requires forall i :: 0 <= i < |events| ==> k != events[i].0 && k != UseKey(events[i].0)
    ensures Lookup(PatchAll(props, events), k) == Lookup(props, k)
    decreases |events|
  {
    if |events| > 0 {
      PatchAllKeeps(Patch(props, events[0].0, events[0].1), events[1..], k);
    }
  }

  /** What `finish` hands the compiler once every dependency has arrived:
      each payload stored under its bare name and no `use$name` key left,
      provided no dependency is named like another's `use$` key. */
  lemma {:induction false} LoadedSource(props: Assoc<Value>, events: seq<(string, Value)>)
    requires DistinctNames(events)
    requires NoUseKeyClash(events)
    ensures forall i :: 0 <= i < |events| ==>
      Lookup(PatchAll(props, events), events[i].0) == Some(events[i].1)
      && UseKey(events[i].0) !in Keys(PatchAll(props, events))
    decreases |events|
  {
    if |events| > 0 {
      var p1 := Patch(props, events[0].0, events[0].1);
      var rest := events[1..];
      NamesCons(events);
      LoadedSource(p1, rest);
      var n := events[0].0;
      forall j | 0 <= j < |rest| ensures n != rest[j].0 && n != UseKey(rest[j].0) {
        assert rest[j] == events[j + 1];
      }
      PatchAllKeeps(p1, rest, n);
      forall j | 0 <= j < |rest| ensures UseKey(n) != rest[j].0 && UseKey(n) != UseKey(rest[j].0) {
        assert rest[j] == events[j + 1];
        if UseKey(n) == UseKey(rest[j].0) {
          UseKeyInjective(n, rest[j].0);
        }
      }
      PatchAllKeeps(p1, rest, UseKey(n));
      forall i | 1 <= i < |events|
        ensures Lookup(PatchAll(props, events), events[i].0) == Some(events[i].1)
        ensures UseKey(events[i].0) !in Keys(PatchAll(props, events))
      {
        assert events[i] == rest[i - 1];
      }
    }
  }

  /** Once nothing is pending, every further arrival (a repeated one, say)
      runs `finish` again: the barrier does not latch. */
  lemma ReceiveAfterCompletionFiresAgain(l: Loader, src: Source, name: string, payload: Value)
    requires l.files == map[]
    ensures Receive(l, src, name, payload).finished == Some((Patch(src.props, name, payload), src.tag))
  {
  }

  /** A load started without a name compiles under the empty name: whatever
      files it waits for, the single `finish` hands "" to the compiler, whose
      Type constructor as written cannot name-check it. */
  lemma UnnamedLoadReachesEmptyName(l: Loader, props: Assoc<Value>, pending: Loader, events: seq<(string, Value)>)
    requires |events| > 0 && DistinctNames(events)
    requires pending.files.Keys == Names(events)
    ensures Run(pending, Start(l, props, None).1.tag, events, 0).1 == [Fired(|events| - 1, "")]
  {
    assert Start(l, props, None).1.tag == "";
    FiresOnceAtLast(pending, "", events, 0);
  }
}
