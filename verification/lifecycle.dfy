/**
 * Invariants of the widget lifecycle machine of module Registry.
 *
 * For every variant whose early stamping writes the id it checks: ids are
 * never reused, the registry holds exactly the ids registered and not yet
 * torn down, and each id is registered at most once and torn down at most
 * once.
 *
 * For a variant that writes the id it checks ("sound"), and that either
 * stamps during discovery or never takes the asynchronous path: at most one
 * live instance per element, and discovery is idempotent.
 */
module Lifecycle {
  import opened Wrappers
  import opened Registry

  function Init<T>(xs: seq<T>): seq<T>
    requires xs != []
  {
    xs[..|xs| - 1]
  }

  /** The ids the log has registered. */
  ghost function RegisteredIds(log: seq<Event>): set<Id> {
    if log == [] then {}
    else RegisteredIds(Init(log)) + (if log[|log| - 1].Registered? then {log[|log| - 1].id} else {})
  }

  /** The ids the log has torn down. */
  ghost function DestroyedIds(log: seq<Event>): set<Id> {
    if log == [] then {}
    else DestroyedIds(Init(log)) + (if log[|log| - 1].Destroyed? then {log[|log| - 1].id} else {})
  }

  /** No id is registered twice and none is torn down twice. */
  ghost predicate OnceEach(log: seq<Event>) {
    log == [] ||
      (var e := log[|log| - 1];
       && OnceEach(Init(log))
       && (e.Registered? ==> e.id !in RegisteredIds(Init(log)))
       && (e.Destroyed? ==> e.id !in DestroyedIds(Init(log))))
  }

  lemma LogSnoc(log: seq<Event>, e: Event)
    ensures Init(log + [e]) == log
    ensures RegisteredIds(log + [e]) == RegisteredIds(log) + (if e.Registered? then {e.id} else {})
    ensures DestroyedIds(log + [e]) == DestroyedIds(log) + (if e.Destroyed? then {e.id} else {})
    ensures OnceEach(log + [e]) <==>
      OnceEach(log) && (e.Registered? ==> e.id !in RegisteredIds(log)) && (e.Destroyed? ==> e.id !in DestroyedIds(log))
  {
    assert Init(log + [e]) == log;
  }

  /** Every id the library has written or logged came from the oracle before `next`. */
  ghost predicate IdsBelow(s: State) {
    && (forall e, sl :: e in s.doc.nodes && sl in s.doc.nodes[e].marks ==> s.doc.nodes[e].marks[sl] < s.next)
    && (forall id :: id in RegisteredIds(s.log) ==> id < s.next)
  }

  /** No two elements carry the same id at the same place. */
  ghost predicate UniqueIds(d: Doc) {
    forall e1, e2, sl :: e1 in d.nodes && e2 in d.nodes && e1 != e2 && sl in d.nodes[e1].marks && sl in d.nodes[e2].marks ==>
      d.nodes[e1].marks[sl] != d.nodes[e2].marks[sl]
  }

  ghost function LoadElems(loads: seq<Load>): set<Elem> {
    set l | l in loads :: l.elem
  }

  /** Early stamping: each pending element is stamped with an id never registered, one load per element. */
  ghost predicate PendingUnregistered(v: Variant, s: State) {
    && (forall i, j :: 0 <= i < j < |s.loads| ==> s.loads[i].elem != s.loads[j].elem)
    && (forall l :: l in s.loads ==>
          l.elem in s.doc.nodes && v.check in s.doc.nodes[l.elem].marks &&
          s.doc.nodes[l.elem].marks[v.check] !in RegisteredIds(s.log))
  }

  /** A variant that stamps during discovery writes the id it checks (true of index.js). */
  ghost predicate Coherent(v: Variant) {
    v.early ==> v.check in v.stamps
  }

  ghost predicate Fresh(v: Variant, s: State) {
    && IdsBelow(s)
    && UniqueIds(s.doc)
    && s.registry.Keys == RegisteredIds(s.log) - DestroyedIds(s.log)
    && DestroyedIds(s.log) <= RegisteredIds(s.log)
    && OnceEach(s.log)
    && (forall l :: l in s.loads ==> l.elem in s.doc.nodes)
    && (v.early ==> PendingUnregistered(v, s))
  }

  /** Nothing happened yet: no ids, no instances, no loads. */
  ghost predicate Blank(s: State) {
    && s.registry == map[] && s.loads == [] && s.log == []
    && forall e :: e in s.doc.nodes ==> s.doc.nodes[e].marks == map[]
  }

  lemma BlankIsFresh(v: Variant, s: State)
    requires Blank(s)
    ensures Fresh(v, s)
  {
  }

  lemma RegisterFresh(v: Variant, s: State, id: Id, e: Elem, name: string)
    requires Fresh(v, s)
    requires id < s.next && id !in RegisteredIds(s.log)
    requires v.early ==> forall l :: l in s.loads ==> s.doc.nodes[l.elem].marks[v.check] != id
    ensures Fresh(v, Register(s, id, e, name))
  {
    LogSnoc(s.log, Registered(id, e));
  }

  lemma UnregisterFresh(v: Variant, s: State, e: Elem, slot: Slot, throws: set<Id>)
    requires Fresh(v, s)
    ensures Fresh(v, Unregister(v, s, e, slot, throws).state)
  {
    if e in s.doc.nodes && slot in s.doc.nodes[e].marks && s.doc.nodes[e].marks[slot] in s.registry {
      LogSnoc(s.log, Destroyed(s.doc.nodes[e].marks[slot]));
    }
  }

  lemma {:induction false} UnregisterAllFresh(v: Variant, s: State, es: seq<Elem>, slot: Slot, throws: set<Id>)
    requires Fresh(v, s)
    ensures Fresh(v, UnregisterAll(v, s, es, slot, throws).state)
    decreases |es|
  {
    if es != [] {
      UnregisterFresh(v, s, es[0], slot, throws);
      var t := Unregister(v, s, es[0], slot, throws);
      if !t.threw {
        UnregisterAllFresh(v, t.state, es[1..], slot, throws);
      }
    }
  }

  lemma RemoveNodeFresh(v: Variant, s: State, node: Elem, throws: set<Id>)
    requires Fresh(v, s)
    ensures Fresh(v, RemoveNode(v, s, node, throws).state)
  {
    var t := match v.descendants
      case None => Removal(s, false)
      case Some(slot) => UnregisterAll(v, s, TaggedBelow(v, s.doc, node, s.doc.order), slot, throws);
    if v.descendants.Some? {
      UnregisterAllFresh(v, s, TaggedBelow(v, s.doc, node, s.doc.order), v.descendants.value, throws);
    }
    if !t.threw {
      UnregisterFresh(v, t.state, node, v.check, throws);
    }
  }

  lemma {:induction false} RemoveNodesFresh(v: Variant, s: State, removed: seq<Elem>, throws: set<Id>)
    requires Fresh(v, s)
    ensures Fresh(v, RemoveNodes(v, s, removed, throws).state)
    decreases |removed|
  {
    if removed != [] {
      RemoveNodeFresh(v, s, removed[0], throws);
      var t := RemoveNode(v, s, removed[0], throws);
      if !t.threw {
        RemoveNodesFresh(v, t.state, removed[1..], throws);
      }
    }
  }

  /** Stamping one element with the next id keeps ids fresh and unique. */
  lemma StampFresh(v: Variant, s: State, e: Elem)
    requires Fresh(v, s) && e in s.doc.nodes
    ensures Fresh(v, StampNext(v, s, e))
  {
    StampedIds(v, s.doc, e, s.next);
    StampIdsBelow(v, s, e);
    StampUnique(v, s, e);
  }

  /** Each id on the stamped page is the old one at that place or the new one on `e`. */
  lemma StampedIds(v: Variant, d: Doc, e: Elem, id: Id)
    requires e in d.nodes
    ensures var d' := Stamp(v, d, e, id);
      forall x, sl :: x in d'.nodes && sl in d'.nodes[x].marks ==>
        (sl in d.nodes[x].marks && d'.nodes[x].marks[sl] == d.nodes[x].marks[sl]) || (x == e && d'.nodes[x].marks[sl] == id)
  {
  }

  lemma StampIdsBelow(v: Variant, s: State, e: Elem)
    requires Fresh(v, s) && e in s.doc.nodes
    ensures IdsBelow(StampNext(v, s, e))
  {
    StampedIds(v, s.doc, e, s.next);
  }

  lemma StampUnique(v: Variant, s: State, e: Elem)
    requires Fresh(v, s) && e in s.doc.nodes
    ensures UniqueIds(StampNext(v, s, e).doc)
  {
    var d := s.doc;
    var d' := StampNext(v, s, e).doc;
    StampedIds(v, d, e, s.next);
    forall x1, x2, sl | x1 in d'.nodes && x2 in d'.nodes && x1 != x2 && sl in d'.nodes[x1].marks && sl in d'.nodes[x2].marks
      ensures d'.nodes[x1].marks[sl] != d'.nodes[x2].marks[sl]
    {
      assert x1 != e ==> d'.nodes[x1].marks[sl] < s.next;
      assert x2 != e ==> d'.nodes[x2].marks[sl] < s.next;
    }
  }

  lemma {:induction false} StampAllFresh(v: Variant, s: State, found: seq<Elem>)
    requires Fresh(v, s)
    requires forall e :: e in found ==> e in s.doc.nodes
    requires Distinct(found)
    ensures Fresh(v, StampAll(v, s, found))
    decreases |found|
  {
    if found != [] {
      StampFresh(v, s, found[0]);
      var s1 := StampNext(v, s, found[0]);
      DistinctTail(found);
      assert forall e :: e in found[1..] ==> e in s1.doc.nodes;
      StampAllFresh(v, s1, found[1..]);
    }
  }

  /** What construction needs under early stamping: the element is not pending and its id is unregistered. */
  ghost predicate ReadyToBuild(v: Variant, s: State, e: Elem) {
    && e in s.doc.nodes
    && (v.early ==> e !in LoadElems(s.loads)
                    && v.check in s.doc.nodes[e].marks
                    && s.doc.nodes[e].marks[v.check] !in RegisteredIds(s.log))
  }

  lemma ConstructFresh(v: Variant, s: State, e: Elem, name: string, ok: bool)
    requires Fresh(v, s) && ReadyToBuild(v, s, e)
    ensures Fresh(v, Construct(v, s, e, name, ok))
  {
    if v.early {
      if ok {
        var id := s.doc.nodes[e].marks[v.check];
        forall l | l in s.loads
          ensures s.doc.nodes[l.elem].marks[v.check] != id
        {
          assert l.elem in LoadElems(s.loads);
        }
        RegisterFresh(v, s, id, e, name);
      }
    } else {
      StampFresh(v, s, e);
      if ok {
        RegisterFresh(v, StampNext(v, s, e), s.next, e, name);
      }
    }
  }

  /** Every element of `found` can be built, and the elements are distinct. */
  ghost predicate ReadyAll(v: Variant, s: State, found: seq<Elem>) {
    && Distinct(found)
    && (forall e :: e in found ==> Tagged(v, s.doc, e) && ReadyToBuild(v, s, e))
  }

  lemma BeginFresh(v: Variant, s: State, e: Elem, fails: set<Elem>)
    requires Fresh(v, s) && Tagged(v, s.doc, e) && ReadyToBuild(v, s, e)
    ensures Fresh(v, Begin(v, s, e, fails))
  {
    var name := Name(v, s.doc, e);
    if Lazy(v, s.cache, name) {
      var s1 := Begin(v, s, e, fails);
      LogSnoc(s.log, ImportStarted(name));
      if v.early {
        forall i, j | 0 <= i < j < |s1.loads| ensures s1.loads[i].elem != s1.loads[j].elem {
          if j == |s.loads| {
            assert s.loads[i] in s.loads;
          }
        }
      }
    } else {
      ConstructFresh(v, s, e, name, e !in fails && HasHandler(v, name));
    }
  }

  /** Beginning one element leaves every other element as ready as it was. */
  lemma BeginKeepsReady(v: Variant, s: State, e: Elem, fails: set<Elem>, x: Elem)
    requires Fresh(v, s) && Tagged(v, s.doc, e) && ReadyToBuild(v, s, e)
    requires x != e && Tagged(v, s.doc, x) && ReadyToBuild(v, s, x)
    ensures Tagged(v, Begin(v, s, e, fails).doc, x) && ReadyToBuild(v, Begin(v, s, e, fails), x)
  {
    if v.early {
      var name := Name(v, s.doc, e);
      var s1 := Begin(v, s, e, fails);
      LogSnoc(s.log, ImportStarted(name));
      LogSnoc(s.log, Registered(s.doc.nodes[e].marks[v.check], e));
      assert s1.log == s.log || s1.log == s.log + [ImportStarted(name)] ||
             s1.log == s.log + [Registered(s.doc.nodes[e].marks[v.check], e)];
      assert LoadElems(s1.loads) <= LoadElems(s.loads) + {e};
    }
  }

  lemma {:induction false} StartFresh(v: Variant, s: State, found: seq<Elem>, fails: set<Elem>)
    requires Fresh(v, s) && ReadyAll(v, s, found)
    ensures Fresh(v, Start(v, s, found, fails))
    decreases |found|
  {
    if found != [] {
      var e := found[0];
      var s1 := Begin(v, s, e, fails);
      BeginFresh(v, s, e, fails);
      DistinctTail(found);
      forall x | x in found[1..]
        ensures Tagged(v, s1.doc, x) && ReadyToBuild(v, s1, x)
      {
        BeginKeepsReady(v, s, e, fails, x);
      }
      StartFresh(v, s1, found[1..], fails);
    }
  }

  /** Under early stamping, the elements discovery finds are ready once stamped. */
  lemma StampedFoundReady(v: Variant, s: State, found: seq<Elem>)
    requires Fresh(v, s) && Coherent(v) && v.early && Distinct(found)
    requires forall e :: e in found ==> e in s.doc.nodes && Eligible(v, s.doc, e)
    ensures ReadyAll(v, StampAll(v, s, found), found)
  {
    var s1 := StampAll(v, s, found);
    forall e | e in found ensures Tagged(v, s1.doc, e) && ReadyToBuild(v, s1, e) {
      var i :| 0 <= i < |found| && found[i] == e;
      assert StampedWith(v, s.doc.nodes[e].marks, s1.doc.nodes[e].marks, s.next + i);
      assert s1.doc.nodes[e].marks[v.check] == s.next + i;
      forall l | l in s.loads ensures l.elem != e {
        assert v.check in s.doc.nodes[l.elem].marks;
      }
    }
  }

  /** Discovery keeps the invariant. */
  lemma DiscoverFresh(v: Variant, s: State, target: Elem, fails: set<Elem>)
    requires Fresh(v, s) && Coherent(v) && WellFormed(s.doc)
    ensures Fresh(v, Discover(v, s, target, fails))
  {
    var found := Find(v, s.doc, target);
    assert forall e :: e in found ==> Eligible(v, s.doc, e);
    if v.early {
      StampAllFresh(v, s, found);
      StampedFoundReady(v, s, found);
      StartFresh(v, StampAll(v, s, found), found, fails);
    } else {
      StartFresh(v, s, found, fails);
    }
  }

  lemma SameShapeWellFormed(d: Doc, d': Doc)
    requires WellFormed(d) && SameShape(d, d')
    ensures WellFormed(d')
  {
    assert forall e :: e in d'.nodes <==> e in d.nodes;
  }

  lemma {:induction false} DiscoverAllFresh(v: Variant, s: State, added: seq<Elem>, fails: set<Elem>)
    requires Fresh(v, s) && Coherent(v) && WellFormed(s.doc)
    ensures Fresh(v, DiscoverAll(v, s, added, fails))
    decreases |added|
  {
    if added != [] {
      DiscoverFresh(v, s, added[0], fails);
      var s1 := Discover(v, s, added[0], fails);
      SameShapeWellFormed(s.doc, s1.doc);
      DiscoverAllFresh(v, s1, added[1..], fails);
    }
  }

  /** A mutation batch keeps the invariant. */
  lemma {:induction false} DeliverFresh(v: Variant, s: State, batch: seq<Record>, fails: set<Elem>, throws: set<Id>)
    requires Fresh(v, s) && Coherent(v) && WellFormed(s.doc)
    ensures Fresh(v, Deliver(v, s, batch, fails, throws))
    decreases |batch|
  {
    if batch != [] {
      match batch[0]
      case OtherRecord =>
        if !v.stopOnOther {
          DeliverFresh(v, s, batch[1..], fails, throws);
        }
      case ChildList(added, removed) =>
        RemoveNodesFresh(v, s, removed, throws);
        var t := RemoveNodes(v, s, removed, throws);
        if !t.threw {
          DiscoverAllFresh(v, t.state, added, fails);
          var s2 := DiscoverAll(v, t.state, added, fails);
          SameShapeWellFormed(t.state.doc, s2.doc);
          DeliverFresh(v, s2, batch[1..], fails, throws);
        }
    }
  }

  /** Dropping a settled load keeps the invariant and leaves its element ready to build. */
  lemma DropLoadFresh(v: Variant, s: State, k: nat)
    requires Fresh(v, s) && k < |s.loads|
    ensures Fresh(v, s.(loads := Without(s.loads, k)))
    ensures ReadyToBuild(v, s.(loads := Without(s.loads, k)), s.loads[k].elem)
  {
    WithoutIn(s.loads, k);
    if v.early {
      DropLoadPending(v, s, k);
    }
  }

  lemma WithoutIn<T>(xs: seq<T>, k: nat)
    requires k < |xs|
    ensures forall x :: x in Without(xs, k) ==> x in xs
  {
    forall x | x in Without(xs, k) ensures x in xs {
      var i :| 0 <= i < |Without(xs, k)| && Without(xs, k)[i] == x;
      assert x == xs[if i < k then i else i + 1];
    }
  }

  /** Under early stamping the dropped load's element is pending nowhere else. */
  lemma DropLoadPending(v: Variant, s: State, k: nat)
    requires Fresh(v, s) && k < |s.loads| && v.early
    ensures PendingUnregistered(v, s.(loads := Without(s.loads, k)))
    ensures s.loads[k].elem !in LoadElems(Without(s.loads, k))
  {
    var rest := Without(s.loads, k);
    WithoutIn(s.loads, k);
    forall i, j | 0 <= i < j < |rest| ensures rest[i].elem != rest[j].elem {
      var i', j' := if i < k then i else i + 1, if j < k then j else j + 1;
      assert rest[i] == s.loads[i'] && rest[j] == s.loads[j'];
    }
    forall l | l in rest ensures l.elem != s.loads[k].elem {
      var i :| 0 <= i < |rest| && rest[i] == l;
      var i' := if i < k then i else i + 1;
      assert rest[i] == s.loads[i'];
    }
  }

  /** A settling import keeps the invariant. */
  lemma CompleteFresh(v: Variant, s: State, k: nat, outcome: Outcome)
    requires Fresh(v, s) && k < |s.loads| && s.loads[k].elem in s.doc.nodes
    ensures Fresh(v, Complete(v, s, k, outcome))
  {
    DropLoadFresh(v, s, k);
    if outcome.Built? {
      var l := s.loads[k];
      ConstructFresh(v, s.(loads := Without(s.loads, k)), l.elem, l.name, outcome.ok);
    }
  }

  /** A page edit that keeps the library's ids keeps the invariant. */
  lemma EditFresh(v: Variant, s: State, d: Doc)
    requires Fresh(v, s) && Allowed(s, Edit(d))
    ensures Fresh(v, s.(doc := d))
  {
  }

  /** Every allowed step keeps the invariant. */
  lemma ApplyFresh(v: Variant, s: State, step: Step)
    requires Fresh(v, s) && Coherent(v) && Allowed(s, step)
    ensures Fresh(v, Apply(v, s, step))
  {
    match step
    case Init(fails) => DiscoverFresh(v, s, s.doc.root, fails);
    case Batch(records, fails, throws) => DeliverFresh(v, s, records, fails, throws);
    case Finish(k, outcome) => CompleteFresh(v, s, k, outcome);
    case Edit(d) => EditFresh(v, s, d);
  }

  lemma {:induction false} RegisteredIdsHas(log: seq<Event>, i: nat)
    requires i < |log| && log[i].Registered?
    ensures log[i].id in RegisteredIds(log)
    decreases |log|
  {
    if i < |log| - 1 {
      assert Init(log)[i] == log[i];
      RegisteredIdsHas(Init(log), i);
    }
  }

  lemma {:induction false} DestroyedIdsHas(log: seq<Event>, i: nat)
    requires i < |log| && log[i].Destroyed?
    ensures log[i].id in DestroyedIds(log)
    decreases |log|
  {
    if i < |log| - 1 {
      assert Init(log)[i] == log[i];
      DestroyedIdsHas(Init(log), i);
    }
  }

  /**
   * What `OnceEach` means for the log read front to back: no two
   * `Registered` events share an id, and no two `Destroyed` events do, so
   * no instance is torn down twice.
   */
  lemma {:induction false} OnceEachPairwise(log: seq<Event>)
    requires OnceEach(log)
    ensures forall i, j :: 0 <= i < j < |log| && log[i].Registered? && log[j].Registered? ==> log[i].id != log[j].id
    ensures forall i, j :: 0 <= i < j < |log| && log[i].Destroyed? && log[j].Destroyed? ==> log[i].id != log[j].id
    decreases |log|
  {
    if log != [] {
      var init := Init(log);
      OnceEachPairwise(init);
      forall i, j | 0 <= i < j < |log|
        ensures log[i].Registered? && log[j].Registered? ==> log[i].id != log[j].id
        ensures log[i].Destroyed? && log[j].Destroyed? ==> log[i].id != log[j].id
      {
        assert init[i] == log[i];
        if j < |log| - 1 {
          assert init[j] == log[j];
        } else {
          if log[i].Registered? { RegisteredIdsHas(init, i); }
          if log[i].Destroyed? { DestroyedIdsHas(init, i); }
        }
      }
    }
  }

  /** `s'` is reached from `s` by `steps`, each allowed when taken. */
  ghost predicate Runs(v: Variant, s: State, steps: seq<Step>, s': State)
    decreases |steps|
  {
    if steps == [] then s' == s
    else Allowed(s, steps[0]) && Runs(v, Apply(v, s, steps[0]), steps[1..], s')
  }

  lemma {:induction false} RunsFresh(v: Variant, s: State, steps: seq<Step>, s': State)
    requires Fresh(v, s) && Coherent(v) && Runs(v, s, steps, s')
    ensures Fresh(v, s')
    decreases |steps|
  {
    if steps != [] {
      ApplyFresh(v, s, steps[0]);
      RunsFresh(v, Apply(v, s, steps[0]), steps[1..], s');
    }
  }

  /**
   * From a page the library has not touched, for a variant whose early
   * stamping writes the id it checks: every id on the page or in the log
   * came from the oracle, no two elements share an id at one place, the
   * registry is exactly the registered and not yet torn-down instances,
   * nothing is torn down that was not registered, and no instance is
   * registered twice or torn down twice.
   */
  lemma Reachable(v: Variant, s: State, steps: seq<Step>, s': State)
    requires Blank(s) && Coherent(v) && Runs(v, s, steps, s')
    ensures IdsBelow(s') && UniqueIds(s'.doc)
    ensures s'.registry.Keys == RegisteredIds(s'.log) - DestroyedIds(s'.log)
    ensures DestroyedIds(s'.log) <= RegisteredIds(s'.log)
    ensures forall i, j :: 0 <= i < j < |s'.log| && s'.log[i].Registered? && s'.log[j].Registered? ==> s'.log[i].id != s'.log[j].id
    ensures forall i, j :: 0 <= i < j < |s'.log| && s'.log[i].Destroyed? && s'.log[j].Destroyed? ==> s'.log[i].id != s'.log[j].id
  {
    BlankIsFresh(v, s);
    RunsFresh(v, s, steps, s');
    OnceEachPairwise(s'.log);
  }
}
