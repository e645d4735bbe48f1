/**
 * Runs of the lifecycle machine of module Registry that show where the
 * invariants of module Binding do not hold and where the three observers
 * behave differently. Each step is a lemma over any state meeting its
 * hypotheses; the concrete runs start from pages of two or three elements.
 *
 * Element 0 is the observed root; the widget name is always "w".
 */
module Traces {
  import opened Wrappers
  import opened Registry
  import Lifecycle
  import Binding

  /** A tagged element whose ancestors are `path`. */
  function Widget(nameAttr: string, path: seq<Elem>): Node {
    Node(path, map[nameAttr := "w"], map[])
  }

  const RootNode := Node([], map[], map[])

  /** The root with one widget element, 1, directly inside it. */
  function OneWidget(nameAttr: string): Doc {
    Doc(0, [0, 1], map[0 := RootNode, 1 := Widget(nameAttr, [0])])
  }

  /** The same page after a second widget element, 2, is appended to the root. */
  function TwoWidgets(nameAttr: string): Doc {
    Doc(0, [0, 1, 2], map[0 := RootNode, 1 := Widget(nameAttr, [0]), 2 := Widget(nameAttr, [0])])
  }

  /** The root, an untagged container 1 inside it, and widget element 2 inside the container. */
  function Nested(nameAttr: string): Doc {
    Doc(0, [0, 1, 2], map[0 := RootNode, 1 := Node([0], map[], map[]), 2 := Widget(nameAttr, [0, 1])])
  }

  /** `d` with element `e` carrying `marks`. */
  function Marked(d: Doc, e: Elem, marks: map<Slot, Id>): Doc
    requires e in d.nodes
  {
    d.(nodes := d.nodes[e := d.nodes[e].(marks := marks)])
  }

  function Untouched(d: Doc): State {
    State(d, map[], {}, [], 0, [])
  }

  /** src/Observer.ts with the attribute names of its configuration, and no widget bundled. */
  function ObserverAllLazy(): Variant {
    ObserverTs("data-widget", "data-widget-id", {})
  }

  /** src/Observer.ts with the widget "w" bundled. */
  function ObserverEager(): Variant {
    ObserverTs("data-widget", "data-widget-id", {"w"})
  }

  /** The helpers observer with the widget "w" bundled synchronously. */
  function HelpersEager(): Variant {
    HelpersObserver({}, {"w"})
  }

  // Steps that hold on any state meeting their hypotheses.

  /** A run that starts with `step`. */
  lemma RunsCons(v: Variant, s: State, step: Step, rest: seq<Step>, s': State)
    requires Allowed(s, step) && Lifecycle.Runs(v, Apply(v, s, step), rest, s')
    ensures Lifecycle.Runs(v, s, [step] + rest, s')
  {
    assert ([step] + rest)[0] == step && ([step] + rest)[1..] == rest;
  }

  /** Discovery on the one-widget page, from the root or from the widget, finds the widget. */
  lemma OneWidgetPage(v: Variant, d: Doc, t: Elem)
    requires d == OneWidget(v.nameAttr) && (t == 0 || t == 1)
    ensures WellFormed(d) && Tagged(v, d, 1) && d.nodes[1].attrs[v.nameAttr] == "w"
    ensures Find(v, d, t) == [1]
  {
    assert Select(v, d, 0, [1]) == [1];
    assert Select(v, d, 0, [0, 1]) == [1];
  }

  /** Discovery on the two-widget page, from the root or from the second widget, finds both. */
  lemma TwoWidgetsPage(v: Variant, d: Doc, t: Elem)
    requires d == TwoWidgets(v.nameAttr) && (t == 0 || t == 2)
    ensures WellFormed(d) && Tagged(v, d, 1) && Tagged(v, d, 2) && d.nodes[1].attrs == d.nodes[2].attrs
    ensures d.nodes[1].attrs[v.nameAttr] == "w"
    ensures Find(v, d, t) == [1, 2]
  {
    assert Select(v, d, 0, [2]) == [2];
    assert Select(v, d, 0, [1, 2]) == [1, 2];
    assert Select(v, d, 0, [0, 1, 2]) == [1, 2];
  }

  /** Discovery that finds one element with a synchronous name constructs it at once. */
  lemma DiscoverOneEager(v: Variant, s: State, t: Elem, e: Elem, fails: set<Elem>)
    requires !v.early && WellFormed(s.doc) && Tagged(v, s.doc, e)
    requires Find(v, s.doc, t) == [e] && !Lazy(v, s.cache, Name(v, s.doc, e))
    ensures Discover(v, s, t, fails) == Construct(v, s, e, Name(v, s.doc, e), e !in fails && HasHandler(v, Name(v, s.doc, e)))
  {
    StartOne(v, s, e, fails);
  }

  /** A pass over one element is that element's callback. */
  lemma StartOne(v: Variant, s: State, e: Elem, fails: set<Elem>)
    requires Tagged(v, s.doc, e)
    ensures Start(v, s, [e], fails) == Begin(v, s, e, fails)
  {
    assert [e][1..] == [];
  }

  /** Discovery that finds nothing changes nothing. */
  lemma DiscoverNothing(v: Variant, s: State, t: Elem, fails: set<Elem>)
    requires WellFormed(s.doc) && Find(v, s.doc, t) == []
    ensures Discover(v, s, t, fails) == s
  {
    assert StampAll(v, s, []) == s;
  }

  /** A batch of one record: the removals, then one discovery per added node. */
  lemma DeliverOne(v: Variant, s: State, added: seq<Elem>, removed: seq<Elem>, fails: set<Elem>)
    requires WellFormed(s.doc)
    ensures Deliver(v, s, [ChildList(added, removed)], fails, {}) == DiscoverAll(v, RemoveNodes(v, s, removed, {}).state, added, fails)
  {
    assert !RemoveNodes(v, s, removed, {}).threw;
    var r := DiscoverAll(v, RemoveNodes(v, s, removed, {}).state, added, fails);
    Lifecycle.SameShapeWellFormed(s.doc, r.doc);
    assert [ChildList(added, removed)][1..] == [];
  }

  /** The discoveries for one added node are one discovery. */
  lemma DiscoverAllOne(v: Variant, s: State, e: Elem, fails: set<Elem>)
    requires WellFormed(s.doc)
    ensures DiscoverAll(v, s, [e], fails) == Discover(v, s, e, fails)
  {
    var r := Discover(v, s, e, fails);
    Lifecycle.SameShapeWellFormed(s.doc, r.doc);
    assert [e][1..] == [];
  }

  /** Runs compose. */
  lemma {:induction false} RunsAppend(v: Variant, s: State, a: seq<Step>, m: State, b: seq<Step>, s': State)
    requires Lifecycle.Runs(v, s, a, m) && Lifecycle.Runs(v, m, b, s')
    ensures Lifecycle.Runs(v, s, a + b, s')
    decreases |a|
  {
    if a != [] {
      ConsAppend(a, b);
      RunsAppend(v, Apply(v, s, a[0]), a[1..], m, b, s');
    } else {
      ConsAppend(a, b);
    }
  }

  lemma ConsAppend<T>(a: seq<T>, b: seq<T>)
    ensures a == [] ==> a + b == b
    ensures a != [] ==> (a + b)[0] == a[0] && (a + b)[1..] == a[1..] + b
  {
  }

  /** A run of one step. */
  lemma RunsOne(v: Variant, s: State, step: Step)
    requires Allowed(s, step)
    ensures Lifecycle.Runs(v, s, [step], Apply(v, s, step))
  {
    RunsCons(v, s, step, [], Apply(v, s, step));
    ConsAppend([step], []);
  }

  /** A run extended by one step. */
  lemma RunsSnoc(v: Variant, s: State, steps: seq<Step>, m: State, step: Step)
    requires Lifecycle.Runs(v, s, steps, m) && Allowed(m, step)
    ensures Lifecycle.Runs(v, s, steps + [step], Apply(v, m, step))
  {
    RunsOne(v, m, step);
    RunsAppend(v, s, steps, m, [step], Apply(v, m, step));
  }

  /** Some run from `s` ends with two live instances on one element. */
  ghost predicate DoubleBinds(v: Variant, s: State) {
    exists steps, s' :: Lifecycle.Runs(v, s, steps, s') && !Binding.AtMostOne(s')
  }

  /** A run ending with two live instances on one element witnesses DoubleBinds. */
  lemma SharedElement(v: Variant, s: State, steps: seq<Step>, s': State, a: Id, b: Id)
    requires Lifecycle.Runs(v, s, steps, s')
    requires a in s'.registry && b in s'.registry && a != b && s'.registry[a].elem == s'.registry[b].elem
    ensures DoubleBinds(v, s)
  {
  }

  /** The loads a pass over `found` starts when every name is imported asynchronously. */
  function LazyLoads(v: Variant, d: Doc, found: seq<Elem>): seq<Load>
    requires forall e :: e in found ==> Tagged(v, d, e)
  {
    if found == [] then [] else [Load(found[0], Name(v, d, found[0]))] + LazyLoads(v, d, found[1..])
  }

  /** The imports such a pass logs. */
  function LazyImports(v: Variant, d: Doc, found: seq<Elem>): seq<Event>
    requires forall e :: e in found ==> Tagged(v, d, e)
  {
    if found == [] then [] else [ImportStarted(Name(v, d, found[0]))] + LazyImports(v, d, found[1..])
  }

  /**
   * When every found name takes the import path, the pass starts one import
   * per element, in order, and neither constructs nor stamps anything.
   */
  lemma {:induction false} StartAllLazy(v: Variant, s: State, found: seq<Elem>, fails: set<Elem>)
    requires forall e :: e in found ==> Tagged(v, s.doc, e) && Lazy(v, s.cache, Name(v, s.doc, e))
    ensures var r := Start(v, s, found, fails);
      && r.doc == s.doc && r.registry == s.registry && r.next == s.next && r.cache == s.cache
      && r.loads == s.loads + LazyLoads(v, s.doc, found)
      && r.log == s.log + LazyImports(v, s.doc, found)
    decreases |found|
  {
    if found != [] {
      var e := found[0];
      var s1 := Begin(v, s, e, fails);
      TailIn(found);
      StartAllLazy(v, s1, found[1..], fails);
      AppendAssoc(s.loads, [Load(e, Name(v, s.doc, e))], LazyLoads(v, s.doc, found[1..]));
      AppendAssoc(s.log, [ImportStarted(Name(v, s.doc, e))], LazyImports(v, s.doc, found[1..]));
    }
  }

  lemma TailIn<T>(xs: seq<T>)
    requires xs != []
    ensures forall x :: x in xs[1..] ==> x in xs
  {
  }

  lemma AppendAssoc<T>(a: seq<T>, b: seq<T>, c: seq<T>)
    ensures a + (b + c) == (a + b) + c
  {
  }

  /**
   * An import that resolves and constructs, for a variant that stamps late:
   * a new instance on the load's element, whatever is already bound there.
   */
  lemma FinishBuilt(v: Variant, s: State, k: nat)
    requires !v.early && k < |s.loads| && s.loads[k].elem in s.doc.nodes
    ensures Allowed(s, Finish(k, Built(true)))
    ensures var r := Apply(v, s, Finish(k, Built(true)));
      && r.registry == s.registry[s.next := Instance(s.loads[k].elem, s.loads[k].name)]
      && r.next == s.next + 1 && r.loads == Without(s.loads, k) && SameShape(s.doc, r.doc)
  {
  }

  /** Stamping places that discovery does not check leaves the selection unchanged. */
  lemma {:induction false} SelectAfterStamp(v: Variant, d: Doc, x: Elem, id: Id, p: Elem, xs: seq<Elem>)
    requires x in d.nodes && v.check !in v.stamps
    ensures Select(v, Stamp(v, d, x, id), p, xs) == Select(v, d, p, xs)
    decreases |xs|
  {
    if xs != [] {
      var d' := Stamp(v, d, x, id);
      var y := xs[0];
      assert Eligible(v, d', y) == Eligible(v, d, y) by {
        if y == x {
          assert StampedWith(v, d.nodes[x].marks, d'.nodes[x].marks, id);
        }
      }
      SelectAfterStamp(v, d, x, id, p, xs[1..]);
    }
  }

  /** Stamping places that discovery does not check leaves discovery unchanged. */
  lemma FindAfterStamp(v: Variant, d: Doc, x: Elem, id: Id, t: Elem)
    requires x in d.nodes && v.check !in v.stamps
    ensures Find(v, Stamp(v, d, x, id), t) == Find(v, d, t)
  {
    assert SearchRoot(Stamp(v, d, x, id), t) == SearchRoot(d, t);
    if SearchRoot(d, t).Some? {
      SelectAfterStamp(v, d, x, id, SearchRoot(d, t).value, d.order);
    }
  }

  /** Removing a node with no id at the checked place, for a variant that looks no further, changes nothing. */
  lemma RemoveUnmarked(v: Variant, s: State, e: Elem)
    requires v.descendants.None?
    requires e in s.doc.nodes ==> v.check !in s.doc.nodes[e].marks
    ensures RemoveNodes(v, s, [e], {}) == Removal(s, false)
  {
    assert [e][1..] == [];
  }

  /**
   * Moving an element that discovery still finds (removed and added back in
   * one record) constructs a new instance on it, for a variant that stamps
   * late and does not look below removed nodes.
   */
  lemma MoveRebinds(v: Variant, s: State, e: Elem)
    requires !v.early && v.descendants.None? && WellFormed(s.doc) && Tagged(v, s.doc, e)
    requires Find(v, s.doc, e) == [e] && !Lazy(v, s.cache, Name(v, s.doc, e)) && HasHandler(v, Name(v, s.doc, e))
    ensures Allowed(s, Batch([ChildList([e], [e])], {}, {}))
    ensures var r := Apply(v, s, Batch([ChildList([e], [e])], {}, {}));
      r.registry == s.registry[s.next := Instance(e, Name(v, s.doc, e))] && r.next == s.next + 1
  {
    assert e in Find(v, s.doc, e);
    RemoveUnmarked(v, s, e);
    DeliverOne(v, s, [e], [e], {});
    DiscoverAllOne(v, s, e, {});
    DiscoverOneEager(v, s, e, e, {});
  }

  // src/Observer.ts, lazy widget: an element found while its import is
  // pending carries no id yet, so the discovery triggered by a sibling's
  // insertion finds it again, and both imports end in an instance on it.

  lemma OverlapInit(v: Variant, s: State)
    requires v == ObserverAllLazy() && s == Untouched(OneWidget("data-widget"))
    ensures Allowed(s, Init({}))
    ensures var r := Apply(v, s, Init({}));
      r.doc == s.doc && r.registry == map[] && r.next == 0 && r.cache == {} && r.loads == [Load(1, "w")]
  {
    OneWidgetPage(v, s.doc, 0);
    StartAllLazy(v, s, [1], {});
    assert [1][1..] == [];
  }

  lemma OverlapEdit(s: State)
    requires s.doc == OneWidget("data-widget")
    ensures Allowed(s, Edit(TwoWidgets("data-widget")))
  {
  }

  /** An insertion whose discovery finds only lazily imported names starts their imports and nothing else. */
  lemma InsertAllLazy(v: Variant, s: State, e: Elem, fails: set<Elem>)
    requires !v.early && WellFormed(s.doc)
    requires forall x :: x in Find(v, s.doc, e) ==> Tagged(v, s.doc, x) && Lazy(v, s.cache, Name(v, s.doc, x))
    ensures Allowed(s, Batch([ChildList([e], [])], fails, {}))
    ensures var r := Apply(v, s, Batch([ChildList([e], [])], fails, {}));
      r.registry == s.registry && r.next == s.next && r.doc == s.doc && r.cache == s.cache
      && r.loads == s.loads + LazyLoads(v, s.doc, Find(v, s.doc, e))
  {
    DeliverOne(v, s, [e], [], fails);
    assert RemoveNodes(v, s, [], {}) == Removal(s, false);
    DiscoverAllOne(v, s, e, fails);
    StartAllLazy(v, s, Find(v, s.doc, e), fails);
  }

  lemma OverlapBatch(v: Variant, s: State)
    requires v == ObserverAllLazy() && s.doc == TwoWidgets("data-widget") && s.cache == {}
    ensures Allowed(s, Batch([ChildList([2], [])], {}, {}))
    ensures var r := Apply(v, s, Batch([ChildList([2], [])], {}, {}));
      r.registry == s.registry && r.next == s.next && r.cache == {}
      && r.loads == s.loads + [Load(1, "w"), Load(2, "w")] && 1 in r.doc.nodes
  {
    TwoWidgetsPage(v, s.doc, 2);
    InsertAllLazy(v, s, 2, {});
    LazyLoadsTwo(v, s.doc, 1, 2);
  }

  lemma LazyLoadsTwo(v: Variant, d: Doc, a: Elem, b: Elem)
    requires Tagged(v, d, a) && Tagged(v, d, b)
    ensures LazyLoads(v, d, [a, b]) == [Load(a, Name(v, d, a)), Load(b, Name(v, d, b))]
  {
    assert [b][1..] == [];
    assert LazyLoads(v, d, [b]) == [Load(b, Name(v, d, b))];
    assert [a, b][1..] == [b];
  }

  /** The first three steps: the first pass, the page edit and the insertion's batch. */
  lemma OverlapFirst(v: Variant, s: State) returns (steps: seq<Step>, s2: State)
    requires v == ObserverAllLazy() && s == Untouched(OneWidget("data-widget"))
    ensures Lifecycle.Runs(v, s, steps, s2)
    ensures s2.doc == TwoWidgets("data-widget") && s2.cache == {} && s2.loads == [Load(1, "w")]
  {
    var init, edit := Init({}), Edit(TwoWidgets("data-widget"));
    OverlapInit(v, s);
    RunsOne(v, s, init);
    var s1 := Apply(v, s, init);
    OverlapEdit(s1);
    RunsSnoc(v, s, [init], s1, edit);
    s2 := Apply(v, s1, edit);
    steps := [init] + [edit];
  }

  lemma OverlapPrefix(v: Variant, s: State) returns (steps: seq<Step>, s3: State)
    requires v == ObserverAllLazy() && s == Untouched(OneWidget("data-widget"))
    ensures Lifecycle.Runs(v, s, steps, s3)
    ensures |s3.loads| >= 2 && s3.loads[0] == s3.loads[1] && s3.loads[0].elem in s3.doc.nodes
  {
    var batch := Batch([ChildList([2], [])], {}, {});
    var first, s2 := OverlapFirst(v, s);
    OverlapBatch(v, s2);
    RunsSnoc(v, s, first, s2, batch);
    s3 := Apply(v, s2, batch);
    steps := first + [batch];
  }

  /** Two pending imports of one element, both constructing, for a variant that stamps late. */
  lemma TwoFinishes(v: Variant, s: State) returns (steps: seq<Step>, s': State)
    requires !v.early && |s.loads| >= 2 && s.loads[0] == s.loads[1] && s.loads[0].elem in s.doc.nodes
    ensures Lifecycle.Runs(v, s, steps, s')
    ensures s.next in s'.registry && s.next + 1 in s'.registry && s'.registry[s.next].elem == s'.registry[s.next + 1].elem
  {
    var finish := Finish(0, Built(true));
    FinishBuilt(v, s, 0);
    var s4 := Apply(v, s, finish);
    assert s4.loads[0] == s.loads[1];
    FinishBuilt(v, s4, 0);
    s' := Apply(v, s4, finish);
    RunsCons(v, s4, finish, [], s');
    RunsCons(v, s, finish, [finish], s');
    steps := [finish] + [finish];
  }

  /** From the untouched page, a five-step run ends with two live instances on element 1. */
  lemma LazyOverlapTwoInstances(v: Variant, s: State)
    requires v == ObserverAllLazy() && s == Untouched(OneWidget("data-widget"))
    ensures DoubleBinds(v, s)
  {
    var prefix, s3 := OverlapPrefix(v, s);
    var finishes, s5 := TwoFinishes(v, s3);
    RunsAppend(v, s, prefix, s3, finishes, s5);
    SharedElement(v, s, prefix + finishes, s5, s3.next, s3.next + 1);
  }

  /**
   * A pending element is still eligible after the pass that started its
   * import: a second pass starts a second import of the same element.
   */
  lemma LazyDiscoveryRepeats(v: Variant, s: State, t: Elem, e: Elem, fails: set<Elem>)
    requires !v.early && WellFormed(s.doc) && Tagged(v, s.doc, e)
    requires Find(v, s.doc, t) == [e] && Lazy(v, s.cache, Name(v, s.doc, e))
    ensures var s1 := Discover(v, s, t, fails);
      && Find(v, s1.doc, t) == [e]
      && Discover(v, s1, t, fails).loads == s.loads + [Load(e, Name(v, s.doc, e)), Load(e, Name(v, s.doc, e))]
  {
    assert [e][1..] == [];
    StartAllLazy(v, s, [e], fails);
    var s1 := Discover(v, s, t, fails);
    StartAllLazy(v, s1, [e], fails);
  }

  /** The untouched one-widget page, with the widget imported lazily, meets the hypotheses of LazyDiscoveryRepeats. */
  lemma LazyPage(v: Variant, s: State)
    requires v == ObserverAllLazy() && s == Untouched(OneWidget("data-widget"))
    ensures !v.early && WellFormed(s.doc) && Tagged(v, s.doc, 1)
    ensures Find(v, s.doc, 0) == [1] && Lazy(v, s.cache, Name(v, s.doc, 1))
  {
    OneWidgetPage(v, s.doc, 0);
  }

  // src/helpers/Observer.ts: discovery and removal read `data-r-id`, while
  // the constructor of src/helpers/WidgetInstance.ts writes `data-widget-id`.

  lemma HelpersInit(v: Variant, s: State)
    requires v == HelpersEager() && s == Untouched(OneWidget("data-r"))
    ensures Allowed(s, Init({}))
    ensures var r := Apply(v, s, Init({}));
      r.doc == Stamp(v, s.doc, 1, 0) && r.registry == map[0 := Instance(1, "w")] && r.next == 1 && r.cache == {}
  {
    OneWidgetPage(v, s.doc, 0);
    DiscoverOneEager(v, s, 0, 1, {});
  }

  lemma HelpersMove(v: Variant, s: State)
    requires v == HelpersEager() && s.doc == Stamp(v, OneWidget("data-r"), 1, 0) && s.cache == {}
    ensures Allowed(s, Batch([ChildList([1], [1])], {}, {}))
    ensures var r := Apply(v, s, Batch([ChildList([1], [1])], {}, {}));
      r.registry == s.registry[s.next := Instance(1, "w")] && r.next == s.next + 1
  {
    var d := OneWidget("data-r");
    OneWidgetPage(v, d, 1);
    FindAfterStamp(v, d, 1, 0, 1);
    Lifecycle.SameShapeWellFormed(d, s.doc);
    MoveRebinds(v, s, 1);
  }

  /**
   * The helpers observer as written: moving a live widget constructs a
   * second instance on it and tears none down, with every name synchronous.
   */
  lemma HelpersRebindsLiveWidget(v: Variant, s: State)
    requires v == HelpersEager() && s == Untouched(OneWidget("data-r"))
    ensures DoubleBinds(v, s)
  {
    var init, move := Init({}), Batch([ChildList([1], [1])], {}, {});
    HelpersInit(v, s);
    RunsOne(v, s, init);
    var s1 := Apply(v, s, init);
    HelpersMove(v, s1);
    RunsSnoc(v, s, [init], s1, move);
    SharedElement(v, s, [init] + [move], Apply(v, s1, move), 0, 1);
  }

  /**
   * The helpers observer as written never tears a removed element down
   * while the element carries only the ids the constructor writes.
   */
  lemma HelpersRemovalKeepsInstance(async: set<string>, components: set<string>, s: State, e: Elem, fails: set<Elem>)
    requires WellFormed(s.doc)
    requires e in s.doc.nodes ==> s.doc.nodes[e].marks.Keys <= HelpersObserver(async, components).stamps
    ensures Deliver(HelpersObserver(async, components), s, [ChildList([], [e])], fails, {}) == s
  {
    var v := HelpersObserver(async, components);
    RemoveUnmarked(v, s, e);
    assert [ChildList([], [e])][1..] == [];
  }

  /**
   * The helpers observer with discovery and removal reading the attribute
   * the constructor writes.
   */
  function HelpersFixed(async: set<string>, components: set<string>): Variant {
    HelpersObserver(async, components).(check := Attribute("data-widget-id"))
  }

  /**
   * With that correction, and no asynchronously imported name on the page,
   * every run from an untouched page keeps at most one live instance per
   * element, and discovery is idempotent.
   */
  lemma HelpersFixedOneInstance(async: set<string>, components: set<string>, s: State, steps: seq<Step>, s': State)
    requires Lifecycle.Blank(s) && Binding.EagerOnly(HelpersFixed(async, components), s)
    requires Binding.RunsEager(HelpersFixed(async, components), s, steps, s')
    ensures Binding.AtMostOne(s')
    ensures WellFormed(s'.doc) ==>
      (forall t, fails :: Find(HelpersFixed(async, components), Discover(HelpersFixed(async, components), s', t, fails).doc, t) == [])
  {
    var v := HelpersFixed(async, components);
    Binding.OneInstancePerElement(v, s, steps, s');
    Binding.RunsEagerBound(v, s, steps, s');
    if WellFormed(s'.doc) {
      forall t, fails ensures Find(v, Discover(v, s', t, fails).doc, t) == [] {
        Binding.DiscoverIdempotent(v, s', t, fails, fails);
      }
    }
  }

  // src/Observer.ts: removal, moves and failing handlers.

  /**
   * src/Observer.ts: removing the container of a live widget tears nothing
   * down, since only the removed node itself is checked for an id.
   */
  lemma ObserverKeepsRemovedDescendant(v: Variant, s: State)
    requires v == ObserverEager()
    requires s == State(Marked(Nested("data-widget"), 2, map[Attribute("data-widget-id") := 0]),
                        map[0 := Instance(2, "w")], {}, [], 1, [Registered(0, 2)])
    ensures Below(s.doc, 2, 1) && s.registry[0].elem == 2
    ensures Deliver(v, s, [ChildList([], [1])], {}, {}) == s
  {
    RemoveUnmarked(v, s, 1);
    assert [ChildList([], [1])][1..] == [];
  }

  /**
   * Moving a live element that discovery no longer finds tears its instance
   * down and binds nothing in its place.
   */
  lemma MoveTearsDown(v: Variant, s: State, e: Elem)
    requires v.descendants.None? && WellFormed(s.doc) && e in s.doc.nodes
    requires v.check in s.doc.nodes[e].marks && s.doc.nodes[e].marks[v.check] in s.registry
    requires Find(v, s.doc, e) == []
    ensures var id := s.doc.nodes[e].marks[v.check];
      Deliver(v, s, [ChildList([e], [e])], {}, {}) == s.(registry := s.registry - {id}, log := s.log + [Destroyed(id)])
  {
    var id := s.doc.nodes[e].marks[v.check];
    var s1 := s.(registry := s.registry - {id}, log := s.log + [Destroyed(id)]);
    assert [e][1..] == [];
    assert RemoveNodes(v, s, [e], {}) == Removal(s1, false);
    DeliverOne(v, s, [e], [e], {});
    DiscoverAllOne(v, s1, e, {});
    DiscoverNothing(v, s1, e, {});
  }

  /** One live widget, element 1, bound by src/Observer.ts. */
  function ObserverBound(): State {
    State(Marked(OneWidget("data-widget"), 1, map[Attribute("data-widget-id") := 0]),
          map[0 := Instance(1, "w")], {}, [], 1, [Registered(0, 1)])
  }

  lemma ObserverBoundPage(v: Variant, d: Doc)
    requires v == ObserverEager() && d == ObserverBound().doc
    ensures WellFormed(d) && Find(v, d, 1) == []
    ensures Tagged(v, d, 1) && !Eligible(v, d, 1) && d.nodes[1].marks[v.check] == 0
  {
    assert Select(v, d, 0, [1]) == [];
    assert Select(v, d, 0, [0, 1]) == [];
  }

  /**
   * src/Observer.ts: moving a live widget (removed and added back in one
   * record) tears its instance down, and the element, still carrying its
   * id, is never bound again.
   */
  lemma MovedWidgetStaysDown(v: Variant, s: State)
    requires v == ObserverEager() && s == ObserverBound()
    ensures Deliver(v, s, [ChildList([1], [1])], {}, {}) == s.(registry := map[], log := s.log + [Destroyed(0)])
    ensures Tagged(v, s.doc, 1) && !Eligible(v, s.doc, 1)
  {
    ObserverBoundPage(v, s.doc);
    MoveTearsDown(v, s, 1);
    assert s.registry - {0} == map[];
  }

  /**
   * A destroy hook that throws ends the batch, so nothing the same record
   * adds and no later record is handled. The TypeScript observers run the
   * hook before deleting the entry, so the instance stays registered;
   * index.js has deleted it already.
   */
  lemma ThrowingDestroyEndsBatch(v: Variant, s: State, e: Elem, added: seq<Elem>, rest: seq<Record>, fails: set<Elem>)
    requires WellFormed(s.doc) && e in s.doc.nodes && v.check in s.doc.nodes[e].marks
    requires s.doc.nodes[e].marks[v.check] in s.registry
    requires v.descendants.None? || TaggedBelow(v, s.doc, e, s.doc.order) == []
    ensures var id := s.doc.nodes[e].marks[v.check];
      Deliver(v, s, [ChildList(added, [e])] + rest, fails, {id}) ==
        if v.dropFirst then s.(registry := s.registry - {id}, log := s.log + [Destroyed(id)]) else s
  {
    var id := s.doc.nodes[e].marks[v.check];
    assert ([ChildList(added, [e])] + rest)[0] == ChildList(added, [e]);
    if v.descendants.Some? {
      assert UnregisterAll(v, s, [], v.descendants.value, {id}) == Removal(s, false);
    }
    assert RemoveNode(v, s, e, {id}).threw;
    assert RemoveNodes(v, s, [e], {id}) == RemoveNode(v, s, e, {id});
  }

  /**
   * src/Observer.ts: when the live widget's destroy hook throws, moving it
   * leaves it registered and bound, unlike MovedWidgetStaysDown.
   */
  lemma ObserverThrowingDestroyKeepsWidget(v: Variant, s: State)
    requires v == ObserverEager() && s == ObserverBound()
    ensures Deliver(v, s, [ChildList([1], [1])], {}, {0}) == s
  {
    ObserverBoundPage(v, s.doc);
    assert [ChildList([1], [1])] + [] == [ChildList([1], [1])];
    ThrowingDestroyEndsBatch(v, s, 1, [1], [], {});
  }

  /**
   * src/Observer.ts: a handler that throws leaves its element stamped and
   * unregistered, so no later discovery retries it.
   */
  lemma FailedHandlerNotRetried(v: Variant, s: State, t: Elem, e: Elem, fails: set<Elem>)
    requires !v.early && v.check in v.stamps && WellFormed(s.doc) && Tagged(v, s.doc, e)
    requires Find(v, s.doc, t) == [e] && !Lazy(v, s.cache, Name(v, s.doc, e)) && e in fails
    ensures var r := Discover(v, s, t, fails);
      r.registry == s.registry && Tagged(v, r.doc, e) && !Eligible(v, r.doc, e)
  {
    DiscoverOneEager(v, s, t, e, fails);
    var r := Discover(v, s, t, fails);
    assert StampedWith(v, s.doc.nodes[e].marks, r.doc.nodes[e].marks, s.next);
  }

  /** The untouched one-widget page meets the hypotheses of FailedHandlerNotRetried for src/Observer.ts. */
  lemma ObserverFailingPage(v: Variant, s: State)
    requires v == ObserverEager() && s == Untouched(OneWidget("data-widget"))
    ensures !v.early && v.check in v.stamps && WellFormed(s.doc) && Tagged(v, s.doc, 1)
    ensures Find(v, s.doc, 0) == [1] && !Lazy(v, s.cache, Name(v, s.doc, 1))
  {
    OneWidgetPage(v, s.doc, 0);
  }

  /** The records after a non-childList one are dropped by a variant that returns on it. */
  lemma OtherRecordStopsObserver(v: Variant, s: State, rest: seq<Record>, fails: set<Elem>)
    requires v.stopOnOther && WellFormed(s.doc)
    ensures Deliver(v, s, [OtherRecord] + rest, fails, {}) == s
  {
    assert ([OtherRecord] + rest)[0] == OtherRecord;
  }

  /** A variant that does not return on a non-childList record handles the next one. */
  lemma SkipOtherRecord(v: Variant, s: State, e: Elem)
    requires !v.stopOnOther && WellFormed(s.doc)
    ensures Deliver(v, s, [OtherRecord, ChildList([e], [])], {}, {}) == Discover(v, s, e, {})
  {
    var batch := [OtherRecord, ChildList([e], [])];
    assert batch[1..] == [ChildList([e], [])] && [ChildList([e], [])][1..] == [] && [e][1..] == [];
    assert RemoveNodes(v, s, [], {}) == Removal(s, false);
    var s1 := Discover(v, s, e, {});
    Lifecycle.SameShapeWellFormed(s.doc, s1.doc);
    assert DiscoverAll(v, s, [e], {}) == s1;
    assert Deliver(v, s, batch, {}, {}) == Deliver(v, s, batch[1..], {}, {});
  }

  // src/index.js.

  /** src/index.js: removing the container of a live widget tears the widget down. */
  lemma IndexJsTearsDownRemovedDescendant(v: Variant, s: State)
    requires v == IndexJs()
    requires s == State(Marked(Nested("data-sharp"), 2, map[CidProperty := 0, Attribute("data-sharp-id") := 0]),
                        map[0 := Instance(2, "w")], {"w"}, [], 1, [Registered(0, 2)])
    ensures Deliver(v, s, [ChildList([], [1])], {}, {}) == s.(registry := map[], log := s.log + [Destroyed(0)])
  {
    assert TaggedBelow(v, s.doc, 1, [2]) == [2];
    assert TaggedBelow(v, s.doc, 1, [0, 1, 2]) == [2];
    assert RemoveNodes(v, s, [1], {}) == Removal(s.(registry := map[], log := s.log + [Destroyed(0)]), false);
  }

  /**
   * src/index.js: elements naming the same uncached widget, found in one
   * pass, each start an import of it; the class cache is written only after
   * an import settles. On the page with two such elements: two imports of
   * one widget.
   */
  lemma IndexJsImportsTwice(v: Variant, s: State)
    requires v == IndexJs() && WellFormed(s.doc) && s.cache == {} && s.log == []
    requires Find(v, s.doc, 0) == [1, 2] && s.doc.nodes[1].attrs == s.doc.nodes[2].attrs
    ensures var r := Discover(v, s, 0, {});
      |r.log| == 2 && r.log[0] == r.log[1] == ImportStarted(Name(v, s.doc, 1))
  {
    var s1 := StampAll(v, s, [1, 2]);
    StampedBothLazy(v, s);
    StartAllLazy(v, s1, [1, 2], {});
    assert [1, 2][1..] == [2] && [2][1..] == [];
  }

  lemma StampedBothLazy(v: Variant, s: State)
    requires v == IndexJs() && WellFormed(s.doc) && s.cache == {} && s.log == []
    requires Find(v, s.doc, 0) == [1, 2] && s.doc.nodes[1].attrs == s.doc.nodes[2].attrs
    ensures var s1 := StampAll(v, s, [1, 2]);
      && s1.log == []
      && Name(v, s1.doc, 1) == Name(v, s.doc, 1) && Name(v, s1.doc, 2) == Name(v, s.doc, 1)
      && forall e :: e in [1, 2] ==> Tagged(v, s1.doc, e) && Lazy(v, s1.cache, Name(v, s1.doc, e))
  {
    var s1 := StampAll(v, s, [1, 2]);
    assert 1 in Find(v, s.doc, 0) && 2 in Find(v, s.doc, 0);
    assert Tagged(v, s.doc, 1) && Tagged(v, s.doc, 2);
    assert s1.doc.nodes[1].attrs == s.doc.nodes[1].attrs && s1.doc.nodes[2].attrs == s.doc.nodes[1].attrs;
    forall e | e in [1, 2] ensures Tagged(v, s1.doc, e) && Lazy(v, s1.cache, Name(v, s1.doc, e)) {
      assert e == 1 || e == 2;
    }
  }

  /** In src/index.js the record after a non-childList one is handled: a widget it adds is stamped. */
  lemma OtherRecordSkippedByIndexJs(v: Variant, s: State)
    requires v == IndexJs() && WellFormed(s.doc) && 2 in Find(v, s.doc, 2)
    ensures Binding.Checked(v, Deliver(v, s, [OtherRecord, ChildList([2], [])], {}, {}).doc, 2)
  {
    Binding.DiscoverChecks(v, s, 2, {});
    SkipOtherRecord(v, s, 2);
  }

  /** The two-widget page meets the hypotheses of the two src/index.js witnesses above. */
  lemma IndexJsTwoWidgets(v: Variant, s: State)
    requires v == IndexJs() && s == Untouched(TwoWidgets("data-sharp"))
    ensures WellFormed(s.doc) && Find(v, s.doc, 0) == [1, 2] && Find(v, s.doc, 2) == [1, 2]
    ensures s.doc.nodes[1].attrs == s.doc.nodes[2].attrs
  {
    TwoWidgetsPage(v, s.doc, 0);
    TwoWidgetsPage(v, s.doc, 2);
  }
}
