/**
 * The widget lifecycle shared by src/Observer.ts, src/helpers/Observer.ts
 * and src/index.js, as one state machine parameterised by the choices in
 * which the three differ: which attribute names a widget, where its id is
 * read and written, whether the id is stamped during discovery or only by
 * the instance constructor, whether removed descendants are torn down,
 * which names take the asynchronous import path, and whether a
 * non-childList mutation record ends its batch.
 *
 * The page is abstract: elements are handles, each with its ancestors,
 * its author-written attributes and the ids the library stamped on it.
 * Fresh ids come from a counter; the random generators are an oracle that
 * never repeats an id. Handler and import outcomes are chosen by the
 * environment.
 */
module Registry {
  import opened Wrappers
  import Text

  type Elem = nat
  type Id = nat

  /** Where an id is kept on an element: a data attribute, or the `CID` property of index.js. */
  datatype Slot = Attribute(name: string) | CidProperty

  /**
   * An element: its ancestors from the outermost down to its parent, the
   * attributes the page author wrote, and the ids the library stamped.
   */
  datatype Node = Node(path: seq<Elem>, attrs: map<string, string>, marks: map<Slot, Id>)

  /** The page: the observed root, every element (attached or not) in document order, and the elements. */
  datatype Doc = Doc(root: Elem, order: seq<Elem>, nodes: map<Elem, Node>)

  ghost predicate Distinct<T>(xs: seq<T>) {
    forall i, j :: 0 <= i < j < |xs| ==> xs[i] != xs[j]
  }

  lemma DistinctTail<T>(xs: seq<T>)
    requires xs != [] && Distinct(xs)
    ensures Distinct(xs[1..]) && xs[0] !in xs[1..]
  {
    forall i, j | 0 <= i < j < |xs[1..]| ensures xs[1..][i] != xs[1..][j] {
      assert xs[1..][i] == xs[i + 1] && xs[1..][j] == xs[j + 1];
    }
    forall i | 0 <= i < |xs[1..]| ensures xs[1..][i] != xs[0] {
      assert xs[1..][i] == xs[i + 1];
    }
  }

  /** `r` is `xs` with some elements left out and the rest in their order. */
  predicate Subsequence<T(==)>(r: seq<T>, xs: seq<T>)
    decreases |xs|
  {
    r == [] || (xs != [] && ((r[0] == xs[0] && Subsequence(r[1..], xs[1..])) || Subsequence(r, xs[1..])))
  }

  /** Document order lists each element exactly once. */
  ghost predicate WellFormed(d: Doc) {
    && Distinct(d.order)
    && (forall e :: e in d.order <==> e in d.nodes)
  }

  /** Which names are imported asynchronously. */
  datatype Lookup =
      /** src/Observer.ts: every name that is not a key of `widgets`. */
    | UnlessListed(widgets: set<string>)
      /** src/helpers/Observer.ts: the keys of `asyncComponents`; the rest use `components[name]`, present or not. */
    | IfListed(async: set<string>, components: set<string>)
      /** src/index.js: every name whose class is not cached yet. */
    | UnlessCached

  /** The choices in which the three observers differ. */
  datatype Variant = Variant(
    nameAttr: string,            // the attribute holding the widget name
    check: Slot,                 // the id discovery and removal of a node itself read
    stamps: set<Slot>,           // the ids the library writes
    early: bool,                 // ids are stamped during discovery, before any import
    trim: bool,                  // names are trimmed before lookup
    descendants: Option<Slot>,   // removal also tears down descendants, reading this id
    lookup: Lookup,
    stopOnOther: bool,           // a non-childList record ends its batch
    dropFirst: bool)             // the registry entry goes before the destroy hooks run

  /**
   * src/Observer.ts. Its attribute names come from a configuration file
   * that is not part of this model, so they are parameters.
   */
  function ObserverTs(nameAttr: string, idAttr: string, widgets: set<string>): (v: Variant)
    // Only the constructor writes an id, and it writes the one discovery and removal read.
    ensures v.check in v.stamps && !v.early && v.descendants.None? && !v.trim
    // A name is imported exactly when it is not a key of `widgets`, and every other name has a handler.
    ensures forall cache, name :: Lazy(v, cache, name) <==> name !in widgets
    ensures forall name :: HasHandler(v, name)
    // The destroy hook runs before the entry is deleted.
    ensures v.stopOnOther && !v.dropFirst
  {
    Variant(nameAttr, Attribute(idAttr), {Attribute(idAttr)}, false, false, None, UnlessListed(widgets), true, false)
  }

  /**
   * src/helpers/Observer.ts: reads `data-r` and `data-r-id`, while the
   * instance constructor of src/helpers/WidgetInstance.ts stamps the id
   * attribute of src/helpers/configs.ts, `data-widget-id`.
   */
  function HelpersObserver(async: set<string>, components: set<string>): (v: Variant)
    // Discovery and removal read an id the constructor never writes.
    ensures v.check !in v.stamps && !v.early && v.descendants.None? && !v.trim
    // A name is imported exactly when it is a key of `asyncComponents`; any other has a
    // handler only when it is a key of `components`.
    ensures forall cache, name :: Lazy(v, cache, name) <==> name in async
    ensures forall name :: HasHandler(v, name) <==> name in components
    ensures v.stopOnOther && !v.dropFirst
  {
    Variant("data-r", Attribute("data-r-id"), {Attribute("data-widget-id")}, false, false, None, IfListed(async, components), true, false)
  }

  /**
   * src/index.js with the dispatcher it exports: selector `[data-sharp]`,
   * dataset key `sharp`, so the id attribute is `data-sharp-id`.
   */
  function IndexJs(): (v: Variant)
    // Ids are written during discovery, at the place discovery checks and at the
    // attribute the descendant query reads; names are trimmed.
    ensures v.early && v.check in v.stamps && v.descendants.Some? && v.descendants.value in v.stamps && v.trim
    // A name is imported exactly until its class is cached.
    ensures forall cache, name :: Lazy(v, cache, name) <==> name !in cache
    ensures forall name :: HasHandler(v, name)
    // Every record is handled, and the entry is deleted before the destroy hooks run.
    ensures !v.stopOnOther && v.dropFirst
  {
    Variant("data-sharp", CidProperty, {CidProperty, Attribute("data-sharp-id")}, true, true,
            Some(Attribute("data-sharp-id")), UnlessCached, false, true)
  }

  datatype Instance = Instance(elem: Elem, name: string)

  /** An element whose handler is being imported. */
  datatype Load = Load(elem: Elem, name: string)

  /** What the library has done, in order: an import started, an instance registered or torn down. */
  datatype Event = ImportStarted(name: string) | Registered(id: Id, elem: Elem) | Destroyed(id: Id)

  /** The registry, the class cache (index.js), the pending loads, the id oracle and the event log. */
  datatype State = State(doc: Doc, registry: map<Id, Instance>, cache: set<string>, loads: seq<Load>, next: Id, log: seq<Event>)

  function Parent(d: Doc, e: Elem): Option<Elem> {
    if e in d.nodes && d.nodes[e].path != [] then Some(d.nodes[e].path[|d.nodes[e].path| - 1]) else None
  }

  /** The node whose subtree discovery searches: the root itself, else the target's parent (none when detached). */
  function SearchRoot(d: Doc, target: Elem): Option<Elem> {
    if target == d.root then Some(d.root) else Parent(d, target)
  }

  /** `e` lies strictly inside the subtree of `p`. */
  predicate Below(d: Doc, e: Elem, p: Elem) {
    e in d.nodes && p in d.nodes[e].path
  }

  /** `e` carries the widget-name attribute, so the selector matches it. */
  predicate Tagged(v: Variant, d: Doc, e: Elem) {
    e in d.nodes && v.nameAttr in d.nodes[e].attrs
  }

  /** Discovery keeps elements with a non-empty name and no id at the checked place. */
  predicate Eligible(v: Variant, d: Doc, e: Elem) {
    Tagged(v, d, e) && d.nodes[e].attrs[v.nameAttr] != "" && v.check !in d.nodes[e].marks
  }

  /** The elements of `xs` inside `p` that discovery keeps, in the order of `xs`. */
  function Select(v: Variant, d: Doc, p: Elem, xs: seq<Elem>): (r: seq<Elem>)
    ensures forall e :: e in r <==> e in xs && Below(d, e, p) && Eligible(v, d, e)
    ensures Subsequence(r, xs)
    ensures Distinct(xs) ==> Distinct(r)
  {
    if xs == [] then []
    else
      var rest := Select(v, d, p, xs[1..]);
      if Below(d, xs[0], p) && Eligible(v, d, xs[0]) then [xs[0]] + rest else rest
  }

  /**
   * `findWidgets` / `findComponents`: the eligible elements under the search
   * root, in document order; none when the target has no parent.
   */
  function Find(v: Variant, d: Doc, target: Elem): (r: seq<Elem>)
    ensures SearchRoot(d, target).None? ==> r == []
    ensures SearchRoot(d, target).Some? ==>
      forall e :: e in r <==> e in d.order && Below(d, e, SearchRoot(d, target).value) && Eligible(v, d, e)
    ensures Subsequence(r, d.order)
    ensures WellFormed(d) ==> Distinct(r)
  {
    match SearchRoot(d, target)
    case None => []
    case Some(p) => Select(v, d, p, d.order)
  }

  /** The widget name as the lookup sees it. */
  function Name(v: Variant, d: Doc, e: Elem): (n: string)
    requires Tagged(v, d, e)
    ensures !v.trim ==> n == d.nodes[e].attrs[v.nameAttr]
    ensures v.trim ==> var raw := d.nodes[e].attrs[v.nameAttr];
      exists i, j :: 0 <= i <= j <= |raw| && n == raw[i..j] && Text.IsBlank(raw[..i]) && Text.IsBlank(raw[j..])
    ensures v.trim ==> (n == [] <==> Text.IsBlank(d.nodes[e].attrs[v.nameAttr]))
    ensures v.trim && n != [] ==> !Text.IsJsWhitespace(n[0]) && !Text.IsJsWhitespace(n[|n| - 1])
  {
    var raw := d.nodes[e].attrs[v.nameAttr];
    if v.trim then Text.Trim(raw) else raw
  }

  /** The asynchronous import path is taken for this name. */
  predicate Lazy(v: Variant, cache: set<string>, name: string) {
    match v.lookup
    case UnlessListed(widgets) => name !in widgets
    case IfListed(async, _) => name in async
    case UnlessCached => name !in cache
  }

  /** On the synchronous path a handler exists; `components[name]` may be absent in the helpers observer. */
  predicate HasHandler(v: Variant, name: string) {
    match v.lookup
    case IfListed(_, components) => name in components
    case _ => true
  }

  /** Two pages that differ at most in the ids stamped on their elements. */
  ghost predicate SameShape(d: Doc, d': Doc) {
    && d'.root == d.root && d'.order == d.order && d'.nodes.Keys == d.nodes.Keys
    && forall e :: e in d.nodes ==> d'.nodes[e].path == d.nodes[e].path && d'.nodes[e].attrs == d.nodes[e].attrs
  }

  /** The ids a variant writes on one element. */
  function Stamps(v: Variant, id: Id): map<Slot, Id> {
    map sl | sl in v.stamps :: id
  }

  /** `after` is `before` with `id` written at every place the variant stamps. */
  ghost predicate StampedWith(v: Variant, before: map<Slot, Id>, after: map<Slot, Id>, id: Id) {
    && (forall sl :: sl in after <==> sl in before || sl in v.stamps)
    && (forall sl :: sl in v.stamps ==> after[sl] == id)
    && (forall sl :: sl in before && sl !in v.stamps ==> after[sl] == before[sl])
  }

  /** Write `id` at every place the variant stamps, on element `e` only. */
  function Stamp(v: Variant, d: Doc, e: Elem, id: Id): (r: Doc)
    requires e in d.nodes
    ensures SameShape(d, r)
    ensures forall x :: x in d.nodes && x != e ==> r.nodes[x] == d.nodes[x]
    ensures StampedWith(v, d.nodes[e].marks, r.nodes[e].marks, id)
  {
    var n := d.nodes[e];
    d.(nodes := d.nodes[e := n.(marks := n.marks + Stamps(v, id))])
  }

  /** Take the next id from the oracle and stamp it on `e`. */
  function StampNext(v: Variant, s: State, e: Elem): State
    requires e in s.doc.nodes
  {
    s.(doc := Stamp(v, s.doc, e, s.next), next := s.next + 1)
  }

  /** index.js `findComponents`: give each found element the next fresh id, in order. */
  function StampAll(v: Variant, s: State, found: seq<Elem>): (r: State)
    requires forall e :: e in found ==> e in s.doc.nodes
    requires Distinct(found)
    ensures SameShape(s.doc, r.doc)
    ensures r.next == s.next + |found|
    ensures r.registry == s.registry && r.cache == s.cache && r.loads == s.loads && r.log == s.log
    ensures forall i :: 0 <= i < |found| ==> StampedWith(v, s.doc.nodes[found[i]].marks, r.doc.nodes[found[i]].marks, s.next + i)
    ensures forall x :: x in s.doc.nodes && x !in found ==> r.doc.nodes[x] == s.doc.nodes[x]
    decreases |found|
  {
    if found == [] then s
    else
      var s1 := StampNext(v, s, found[0]);
      DistinctTail(found);
      var r := StampAll(v, s1, found[1..]);
      forall i | 0 <= i < |found|
        ensures StampedWith(v, s.doc.nodes[found[i]].marks, r.doc.nodes[found[i]].marks, s.next + i)
      {
        if i > 0 {
          var x := found[i];
          assert x == found[1..][i - 1] && x != found[0];
          assert StampedWith(v, s1.doc.nodes[x].marks, r.doc.nodes[x].marks, s1.next + (i - 1));
          assert s1.doc.nodes[x] == s.doc.nodes[x];
          assert s1.next + (i - 1) == s.next + i;
        } else {
          assert r.doc.nodes[found[0]] == s1.doc.nodes[found[0]];
        }
      }
      r
  }

  /** Record a new live instance. */
  function Register(s: State, id: Id, e: Elem, name: string): State {
    s.(registry := s.registry[id := Instance(e, name)], log := s.log + [Registered(id, e)])
  }

  /**
   * The instance constructor and the registry write after it. Late-stamping
   * variants stamp a fresh id first, whatever the handler then does; the
   * registry entry is written only when construction succeeds.
   */
  function Construct(v: Variant, s: State, e: Elem, name: string, ok: bool): (r: State)
    requires e in s.doc.nodes
    ensures SameShape(s.doc, r.doc) && r.cache == s.cache && r.loads == s.loads
    ensures forall x :: x in s.doc.nodes && x != e ==> r.doc.nodes[x] == s.doc.nodes[x]
    ensures v.early ==> r.doc == s.doc && r.next == s.next
    ensures v.early ==> r.registry == if ok && v.check in s.doc.nodes[e].marks
                                     then s.registry[s.doc.nodes[e].marks[v.check] := Instance(e, name)] else s.registry
    ensures !v.early ==> r.doc == Stamp(v, s.doc, e, s.next) && r.next == s.next + 1
    ensures !v.early ==> r.registry == if ok then s.registry[s.next := Instance(e, name)] else s.registry
    ensures r.log == s.log || (ok && exists id :: r.log == s.log + [Registered(id, e)] && r.registry == s.registry[id := Instance(e, name)])
  {
    if v.early then
      if ok && v.check in s.doc.nodes[e].marks then Register(s, s.doc.nodes[e].marks[v.check], e, name) else s
    else
      var s1 := StampNext(v, s, e);
      if ok then Register(s1, s.next, e, name) else s1
  }

  /**
   * The per-element callback up to its first `await`: a lazy name starts an
   * import and leaves a pending load; any other name is constructed at once.
   * An element in `fails` has a handler (or constructor) that throws.
   */
  function Begin(v: Variant, s: State, e: Elem, fails: set<Elem>): (r: State)
    requires Tagged(v, s.doc, e)
    ensures SameShape(s.doc, r.doc) && r.cache == s.cache && r.next >= s.next
    ensures forall x :: x in s.doc.nodes && x != e ==> r.doc.nodes[x] == s.doc.nodes[x]
    ensures Lazy(v, s.cache, Name(v, s.doc, e)) ==>
      r.doc == s.doc && r.next == s.next && r.registry == s.registry &&
      r.loads == s.loads + [Load(e, Name(v, s.doc, e))] && r.log == s.log + [ImportStarted(Name(v, s.doc, e))]
    ensures !Lazy(v, s.cache, Name(v, s.doc, e)) ==> r.loads == s.loads
  {
    var name := Name(v, s.doc, e);
    if Lazy(v, s.cache, name) then s.(loads := s.loads + [Load(e, name)], log := s.log + [ImportStarted(name)])
    else Construct(v, s, e, name, e !in fails && HasHandler(v, name))
  }

  /** The synchronous part of the callback over every found element, in order. */
  function Start(v: Variant, s: State, found: seq<Elem>, fails: set<Elem>): (r: State)
    requires forall e :: e in found ==> Tagged(v, s.doc, e)
    ensures SameShape(s.doc, r.doc) && r.cache == s.cache
    ensures r.next >= s.next
    ensures |r.loads| >= |s.loads| && r.loads[..|s.loads|] == s.loads
    ensures forall l :: l in r.loads[|s.loads|..] ==> l.elem in found && Lazy(v, s.cache, l.name)
    decreases |found|
  {
    if found == [] then s
    else
      var s1 := Begin(v, s, found[0], fails);
      BeginKeepsTagged(v, s, found[0], fails, found[1..]);
      BeginLoads(v, s, found[0], fails);
      var r := Start(v, s1, found[1..], fails);
      LoadsExtend(s.loads, s1.loads, r.loads);
      r
  }

  /** Begin leaves the other elements tagged. */
  lemma BeginKeepsTagged(v: Variant, s: State, e: Elem, fails: set<Elem>, rest: seq<Elem>)
    requires Tagged(v, s.doc, e)
    requires forall x :: x in rest ==> Tagged(v, s.doc, x)
    ensures forall x :: x in rest ==> Tagged(v, Begin(v, s, e, fails).doc, x)
  {
    var s1 := Begin(v, s, e, fails);
    forall x | x in rest
      ensures Tagged(v, s1.doc, x)
    {
      assert Tagged(v, s.doc, x);
    }
  }

  /** Begin appends at most one load, for its own element and a lazy name. */
  lemma BeginLoads(v: Variant, s: State, e: Elem, fails: set<Elem>)
    requires Tagged(v, s.doc, e)
    ensures var r := Begin(v, s, e, fails);
      && |r.loads| >= |s.loads| && r.loads[..|s.loads|] == s.loads
      && forall l :: l in r.loads[|s.loads|..] ==> l.elem == e && Lazy(v, s.cache, l.name)
  {
    var r := Begin(v, s, e, fails);
    var name := Name(v, s.doc, e);
    if Lazy(v, s.cache, name) {
      assert r.loads[|s.loads|..] == [Load(e, name)];
    } else {
      assert r.loads[|s.loads|..] == [];
    }
  }

  /** Two appends in a row are one append of both parts. */
  lemma LoadsExtend(a: seq<Load>, b: seq<Load>, c: seq<Load>)
    requires |b| >= |a| && b[..|a|] == a
    requires |c| >= |b| && c[..|b|] == b
    ensures |c| >= |a| && c[..|a|] == a
    ensures c[|a|..] == b[|a|..] + c[|b|..]
  {
    assert c[..|a|] == c[..|b|][..|a|];
  }

  /** `importWidgets(target)` up to its first `await`. */
  function Discover(v: Variant, s: State, target: Elem, fails: set<Elem>): (r: State)
    requires WellFormed(s.doc)
    ensures SameShape(s.doc, r.doc) && r.cache == s.cache
    ensures r.next >= s.next
    ensures |r.loads| >= |s.loads| && r.loads[..|s.loads|] == s.loads
    ensures forall l :: l in r.loads[|s.loads|..] ==> l.elem in Find(v, s.doc, target) && Lazy(v, s.cache, l.name)
  {
    var found := Find(v, s.doc, target);
    var s1 := if v.early then StampAll(v, s, found) else s;
    Start(v, s1, found, fails)
  }

  /**
   * What removal handling leaves: the state, and whether a destroy hook
   * threw. The throw leaves the MutationObserver callback, so nothing after
   * it in the batch is handled.
   */
  datatype Removal = Removal(state: State, threw: bool)

  /** The id `e` carries at `slot`, if any. */
  function MarkAt(d: Doc, e: Elem, slot: Slot): set<Id> {
    if e in d.nodes && slot in d.nodes[e].marks then {d.nodes[e].marks[slot]} else {}
  }

  /** The ids the elements of `es` carry at `slot`. */
  function MarksAt(d: Doc, es: seq<Elem>, slot: Slot): set<Id> {
    set e | e in es && e in d.nodes && slot in d.nodes[e].marks :: d.nodes[e].marks[slot]
  }

  /**
   * Tear down the instance whose id `e` carries at `slot`, if that id is
   * registered. Its destroy hook throws when the id is in `throws`: the
   * TypeScript observers run the hook before deleting the entry, so the
   * entry stays; index.js deletes the entry first.
   */
  function Unregister(v: Variant, s: State, e: Elem, slot: Slot, throws: set<Id>): (r: Removal)
    ensures r.state.doc == s.doc && r.state.cache == s.cache && r.state.loads == s.loads && r.state.next == s.next
    ensures forall id :: id in r.state.registry ==> id in s.registry && r.state.registry[id] == s.registry[id]
    ensures r.threw <==> MarkAt(s.doc, e, slot) * s.registry.Keys * throws != {}
    ensures MarkAt(s.doc, e, slot) * s.registry.Keys == {} ==> r == Removal(s, false)
    ensures r.state.registry.Keys == s.registry.Keys - (if r.threw && !v.dropFirst then {} else MarkAt(s.doc, e, slot))
    ensures r.state == s || exists id :: id in s.registry && r.state.registry == s.registry - {id} && r.state.log == s.log + [Destroyed(id)]
  {
    if e in s.doc.nodes && slot in s.doc.nodes[e].marks && s.doc.nodes[e].marks[slot] in s.registry then
      var id := s.doc.nodes[e].marks[slot];
      var gone := s.(registry := s.registry - {id}, log := s.log + [Destroyed(id)]);
      assert id in MarkAt(s.doc, e, slot) * s.registry.Keys;
      if id !in throws then Removal(gone, false)
      else
        assert id in MarkAt(s.doc, e, slot) * s.registry.Keys * throws;
        Removal(if v.dropFirst then gone else s, true)
    else Removal(s, false)
  }

  lemma MarksAtCons(d: Doc, es: seq<Elem>, slot: Slot)
    requires es != []
    ensures MarksAt(d, es, slot) == MarkAt(d, es[0], slot) + MarksAt(d, es[1..], slot)
  {
    forall e | e in es
      ensures e == es[0] || e in es[1..]
    {
      var i :| 0 <= i < |es| && es[i] == e;
      if i > 0 {
        assert es[1..][i - 1] == e;
      }
    }
  }

  /**
   * The registered instance, if any, of each element of `es`, in order,
   * until a destroy hook throws. It throws exactly when one of the ids is
   * registered and throwing; otherwise every registered id they carry goes.
   */
  function UnregisterAll(v: Variant, s: State, es: seq<Elem>, slot: Slot, throws: set<Id>): (r: Removal)
    ensures r.state.doc == s.doc && r.state.cache == s.cache && r.state.loads == s.loads && r.state.next == s.next
    ensures forall id :: id in r.state.registry ==> id in s.registry && r.state.registry[id] == s.registry[id]
    ensures r.threw <==> MarksAt(s.doc, es, slot) * s.registry.Keys * throws != {}
    ensures MarksAt(s.doc, es, slot) * s.registry.Keys == {} ==> r == Removal(s, false)
    ensures !r.threw ==> r.state.registry.Keys == s.registry.Keys - MarksAt(s.doc, es, slot)
    ensures s.registry.Keys - MarksAt(s.doc, es, slot) <= r.state.registry.Keys
    decreases |es|
  {
    if es == [] then Removal(s, false)
    else
      MarksAtCons(s.doc, es, slot);
      var t := Unregister(v, s, es[0], slot, throws);
      if t.threw then t
      else
        var r := UnregisterAll(v, t.state, es[1..], slot, throws);
        ThrowsAfter(MarkAt(s.doc, es[0], slot), MarksAt(s.doc, es[1..], slot), s.registry.Keys, throws);
        r
  }

  /**
   * Handling `a` first and then `b` throws exactly when handling both at
   * once would, given that `a` did not.
   */
  lemma ThrowsAfter(a: set<Id>, b: set<Id>, keys: set<Id>, throws: set<Id>)
    requires a * keys * throws == {}
    ensures (a + b) * keys * throws != {} <==> b * (keys - a) * throws != {}
  {
    if x :| x in (a + b) * keys * throws {
      assert x !in a * keys * throws;
      assert x in b * (keys - a) * throws;
    }
  }

  /** The elements of `xs` inside `p` that the selector matches, in order. */
  function TaggedBelow(v: Variant, d: Doc, p: Elem, xs: seq<Elem>): (r: seq<Elem>)
    ensures forall e :: e in r <==> e in xs && Below(d, e, p) && Tagged(v, d, e)
  {
    if xs == [] then []
    else
      var rest := TaggedBelow(v, d, p, xs[1..]);
      if Below(d, xs[0], p) && Tagged(v, d, xs[0]) then [xs[0]] + rest else rest
  }

  /**
   * The ids removing `node` looks at: index.js's ids on the tagged elements
   * inside it, then every variant's checked id on the node itself.
   */
  function NodeIds(v: Variant, d: Doc, node: Elem): set<Id> {
    (match v.descendants
     case None => {}
     case Some(slot) => MarksAt(d, TaggedBelow(v, d, node, d.order), slot))
    + MarkAt(d, node, v.check)
  }

  /** The ids removing the nodes of `removed` looks at. */
  function RemovedIds(v: Variant, d: Doc, removed: seq<Elem>): set<Id> {
    set n, id | n in removed && id in NodeIds(v, d, n) :: id
  }

  lemma RemovedIdsCons(v: Variant, d: Doc, removed: seq<Elem>)
    requires removed != []
    ensures RemovedIds(v, d, removed) == NodeIds(v, d, removed[0]) + RemovedIds(v, d, removed[1..])
  {
    forall id | id in RemovedIds(v, d, removed)
      ensures id in NodeIds(v, d, removed[0]) + RemovedIds(v, d, removed[1..])
    {
      var n :| n in removed && id in NodeIds(v, d, n);
      var i :| 0 <= i < |removed| && removed[i] == n;
      if i > 0 {
        assert removed[1..][i - 1] == n;
      }
    }
  }

  /**
   * `afterNodeDeleted` for one removed node: index.js first tears down the
   * registered widgets inside it, then (every variant) the node itself.
   */
  function RemoveNode(v: Variant, s: State, node: Elem, throws: set<Id>): (r: Removal)
    ensures r.state.doc == s.doc && r.state.cache == s.cache && r.state.loads == s.loads && r.state.next == s.next
    ensures forall id :: id in r.state.registry ==> id in s.registry && r.state.registry[id] == s.registry[id]
    ensures r.threw <==> NodeIds(v, s.doc, node) * s.registry.Keys * throws != {}
    ensures NodeIds(v, s.doc, node) * s.registry.Keys == {} ==> r == Removal(s, false)
    ensures !r.threw ==> r.state.registry.Keys == s.registry.Keys - NodeIds(v, s.doc, node)
    ensures s.registry.Keys - NodeIds(v, s.doc, node) <= r.state.registry.Keys
  {
    var below := match v.descendants
      case None => {}
      case Some(slot) => MarksAt(s.doc, TaggedBelow(v, s.doc, node, s.doc.order), slot);
    var t := match v.descendants
      case None => Removal(s, false)
      case Some(slot) => UnregisterAll(v, s, TaggedBelow(v, s.doc, node, s.doc.order), slot, throws);
    assert t.threw <==> below * s.registry.Keys * throws != {};
    assert t.state.doc == s.doc && (!t.threw ==> t.state.registry.Keys == s.registry.Keys - below);
    if t.threw then t
    else
      ThrowsAfter(below, MarkAt(s.doc, node, v.check), s.registry.Keys, throws);
      Unregister(v, t.state, node, v.check, throws)
  }

  /** `afterNodeDeleted` over the removed nodes, in order, until a destroy hook throws. */
  function RemoveNodes(v: Variant, s: State, removed: seq<Elem>, throws: set<Id>): (r: Removal)
    ensures r.state.doc == s.doc && r.state.cache == s.cache && r.state.loads == s.loads && r.state.next == s.next
    ensures forall id :: id in r.state.registry ==> id in s.registry && r.state.registry[id] == s.registry[id]
    ensures r.threw <==> RemovedIds(v, s.doc, removed) * s.registry.Keys * throws != {}
    ensures RemovedIds(v, s.doc, removed) * s.registry.Keys == {} ==> r == Removal(s, false)
    ensures !r.threw ==> r.state.registry.Keys == s.registry.Keys - RemovedIds(v, s.doc, removed)
    ensures s.registry.Keys - RemovedIds(v, s.doc, removed) <= r.state.registry.Keys
    decreases |removed|
  {
    if removed == [] then Removal(s, false)
    else
      RemovedIdsCons(v, s.doc, removed);
      var t := RemoveNode(v, s, removed[0], throws);
      if t.threw then t
      else
        var r := RemoveNodes(v, t.state, removed[1..], throws);
        ThrowsAfter(NodeIds(v, s.doc, removed[0]), RemovedIds(v, s.doc, removed[1..]), s.registry.Keys, throws);
        r
  }

  /** `afterNodeAdded`: one discovery per added node, in order. */
  function DiscoverAll(v: Variant, s: State, added: seq<Elem>, fails: set<Elem>): (r: State)
    requires WellFormed(s.doc)
    ensures SameShape(s.doc, r.doc) && r.cache == s.cache
    ensures r.next >= s.next
    ensures |r.loads| >= |s.loads| && r.loads[..|s.loads|] == s.loads
    decreases |added|
  {
    if added == [] then s
    else
      var s1 := Discover(v, s, added[0], fails);
      var r := DiscoverAll(v, s1, added[1..], fails);
      assert r.loads[..|s.loads|] == s1.loads[..|s.loads|];
      r
  }

  /** A mutation record: a childList change, or anything else (attributes). */
  datatype Record = ChildList(added: seq<Elem>, removed: seq<Elem>) | OtherRecord

  /**
   * The MutationObserver callback over one batch: removals before additions
   * in each record. A throwing destroy hook ends the batch.
   */
  function Deliver(v: Variant, s: State, batch: seq<Record>, fails: set<Elem>, throws: set<Id>): (r: State)
    requires WellFormed(s.doc)
    ensures SameShape(s.doc, r.doc) && r.cache == s.cache
    ensures r.next >= s.next
    decreases |batch|
  {
    if batch == [] then s
    else match batch[0]
      case OtherRecord =>
        if v.stopOnOther then s else Deliver(v, s, batch[1..], fails, throws)
      case ChildList(added, removed) =>
        var t := RemoveNodes(v, s, removed, throws);
        if t.threw then t.state
        else Deliver(v, DiscoverAll(v, t.state, added, fails), batch[1..], fails, throws)
  }

  /** How a pending import ends: the import rejects, or it resolves and construction succeeds or throws. */
  datatype Outcome = ImportFailed | Built(ok: bool)

  function Without<T>(xs: seq<T>, k: nat): (r: seq<T>)
    requires k < |xs|
    ensures |r| == |xs| - 1
    ensures forall i :: 0 <= i < k ==> r[i] == xs[i]
    ensures forall i :: k <= i < |r| ==> r[i] == xs[i + 1]
  {
    xs[..k] + xs[k + 1..]
  }

  /**
   * The rest of the callback after the import of load `k` settles. index.js
   * caches the class only after its constructor succeeded.
   */
  function Complete(v: Variant, s: State, k: nat, outcome: Outcome): (r: State)
    requires k < |s.loads| && s.loads[k].elem in s.doc.nodes
    ensures r.loads == Without(s.loads, k)
    ensures SameShape(s.doc, r.doc) && r.next >= s.next
    ensures r.cache == if outcome == Built(true) && v.lookup.UnlessCached? then s.cache + {s.loads[k].name} else s.cache
  {
    var l := s.loads[k];
    var s1 := s.(loads := Without(s.loads, k));
    match outcome
    case ImportFailed => s1
    case Built(ok) =>
      var s2 := Construct(v, s1, l.elem, l.name, ok);
      if ok && v.lookup.UnlessCached? then s2.(cache := s2.cache + {l.name}) else s2
  }

  /** What can happen next. */
  datatype Step =
    | Init(fails: set<Elem>)                       // the first discovery pass over the root
    | Batch(records: seq<Record>, fails: set<Elem>, throws: set<Id>)  // a MutationObserver callback
    | Finish(k: nat, outcome: Outcome)             // a pending import settles
    | Edit(doc: Doc)                               // the page changes the document

  /**
   * Steps the environment may take. Page edits keep every element (detached
   * ones included) and never touch the library's ids; new elements carry none.
   */
  ghost predicate Allowed(s: State, step: Step) {
    match step
    case Init(_) => WellFormed(s.doc)
    case Batch(_, _, _) => WellFormed(s.doc)
    case Finish(k, _) => k < |s.loads| && s.loads[k].elem in s.doc.nodes
    case Edit(d) =>
      && WellFormed(d) && d.root == s.doc.root
      && (forall e :: e in s.doc.nodes ==> e in d.nodes && d.nodes[e].marks == s.doc.nodes[e].marks)
      && (forall e :: e in d.nodes && e !in s.doc.nodes ==> d.nodes[e].marks == map[])
  }

  function Apply(v: Variant, s: State, step: Step): (r: State)
    requires Allowed(s, step)
    // Only a page edit changes the page beyond the library's ids, and it changes nothing else.
    ensures step.Edit? ==> r == s.(doc := step.doc)
    ensures !step.Edit? ==> SameShape(s.doc, r.doc)
    // The id oracle never moves back.
    ensures r.next >= s.next
    // A settling import leaves exactly its own load.
    ensures step.Finish? ==> r.loads == Without(s.loads, step.k)
    // Only a settling import can cache a class, and then only the one it imported.
    ensures r.cache == s.cache || (step.Finish? && r.cache == s.cache + {s.loads[step.k].name})
  {
    match step
    case Init(fails) => Discover(v, s, s.doc.root, fails)
    case Batch(records, fails, throws) => Deliver(v, s, records, fails, throws)
    case Finish(k, outcome) => Complete(v, s, k, outcome)
    case Edit(d) => s.(doc := d)
  }
}
