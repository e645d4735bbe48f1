/**
 * At most one live instance per element, and idempotent discovery, for the
 * variants of module Registry where they hold.
 *
 * Both need the variant to write the id it checks ("sound"). A variant that
 * stamps only in the instance constructor also needs every name on the page
 * to take the synchronous path: a pending import leaves its element
 * unstamped, so the next discovery finds it again.
 */
module Binding {
  import opened Registry
  import Lifecycle

  /** The id read by discovery and removal is one of those the library writes. */
  predicate Sound(v: Variant) {
    v.check in v.stamps
  }

  /** No element on the page names a widget that is imported asynchronously. */
  ghost predicate EagerOnly(v: Variant, s: State) {
    forall e :: Tagged(v, s.doc, e) ==> !Lazy(v, s.cache, Name(v, s.doc, e))
  }

  /** An element carries an id at the place discovery checks. */
  predicate Checked(v: Variant, d: Doc, e: Elem) {
    e in d.nodes && v.check in d.nodes[e].marks
  }

  /**
   * Every registered instance sits on an element that carries its id where
   * discovery checks; late-stamping variants have no pending imports.
   */
  ghost predicate Bound(v: Variant, s: State) {
    && (forall id :: id in s.registry ==>
          Checked(v, s.doc, s.registry[id].elem) && s.doc.nodes[s.registry[id].elem].marks[v.check] == id)
    && (!v.early ==> s.loads == [] && EagerOnly(v, s))
  }

  /** No element has two registered instances. */
  ghost predicate AtMostOne(s: State) {
    forall id1, id2 :: id1 in s.registry && id2 in s.registry && s.registry[id1].elem == s.registry[id2].elem ==> id1 == id2
  }

  lemma BoundAtMostOne(v: Variant, s: State)
    requires Bound(v, s)
    ensures AtMostOne(s)
  {
    forall id1, id2 | id1 in s.registry && id2 in s.registry && s.registry[id1].elem == s.registry[id2].elem
      ensures id1 == id2
    {
      assert s.doc.nodes[s.registry[id1].elem].marks[v.check] == id1;
    }
  }

  lemma EagerOnlyShape(v: Variant, s: State, r: State)
    requires EagerOnly(v, s) && SameShape(s.doc, r.doc) && r.cache == s.cache
    ensures EagerOnly(v, r)
  {
    forall e | Tagged(v, r.doc, e) ensures !Lazy(v, r.cache, Name(v, r.doc, e)) {
      assert Tagged(v, s.doc, e) && Name(v, r.doc, e) == Name(v, s.doc, e);
    }
  }

  /** Constructing on an element that carries no id at the checked place keeps every instance bound. */
  lemma ConstructBound(v: Variant, s: State, e: Elem, name: string, ok: bool)
    requires Bound(v, s) && Sound(v) && e in s.doc.nodes
    requires !v.early ==> !Checked(v, s.doc, e)
    ensures Bound(v, Construct(v, s, e, name, ok))
  {
    var r := Construct(v, s, e, name, ok);
    if !v.early {
      EagerOnlyShape(v, s, r);
      assert r.doc.nodes[e].marks[v.check] == s.next;
    }
    forall id | id in r.registry
      ensures Checked(v, r.doc, r.registry[id].elem) && r.doc.nodes[r.registry[id].elem].marks[v.check] == id
    {
      if id !in s.registry || r.registry[id] != s.registry[id] {
        assert r.registry[id].elem == e;
      } else {
        assert Checked(v, s.doc, s.registry[id].elem);
      }
    }
  }

  lemma BeginBound(v: Variant, s: State, e: Elem, fails: set<Elem>)
    requires Bound(v, s) && Sound(v) && Tagged(v, s.doc, e)
    requires !v.early ==> !Checked(v, s.doc, e)
    ensures Bound(v, Begin(v, s, e, fails))
  {
    var name := Name(v, s.doc, e);
    if !Lazy(v, s.cache, name) {
      ConstructBound(v, s, e, name, e !in fails && HasHandler(v, name));
    }
  }

  lemma {:induction false} StartBound(v: Variant, s: State, found: seq<Elem>, fails: set<Elem>)
    requires Bound(v, s) && Sound(v) && Distinct(found)
    requires forall e :: e in found ==> Tagged(v, s.doc, e)
    requires !v.early ==> forall e :: e in found ==> !Checked(v, s.doc, e)
    ensures Bound(v, Start(v, s, found, fails))
    decreases |found|
  {
    if found != [] {
      var s1 := Begin(v, s, found[0], fails);
      BeginBound(v, s, found[0], fails);
      DistinctTail(found);
      forall x | x in found[1..] ensures Tagged(v, s1.doc, x) && (!v.early ==> !Checked(v, s1.doc, x)) {
        assert x in found && x != found[0];
        assert Tagged(v, s.doc, x) && s1.doc.nodes[x] == s.doc.nodes[x];
      }
      StartBound(v, s1, found[1..], fails);
    }
  }

  lemma StampAllBound(v: Variant, s: State, found: seq<Elem>)
    requires Bound(v, s) && Distinct(found)
    requires forall e :: e in found ==> e in s.doc.nodes && !Checked(v, s.doc, e)
    ensures Bound(v, StampAll(v, s, found))
  {
    var r := StampAll(v, s, found);
    if !v.early {
      EagerOnlyShape(v, s, r);
    }
    forall id | id in r.registry
      ensures Checked(v, r.doc, r.registry[id].elem) && r.doc.nodes[r.registry[id].elem].marks[v.check] == id
    {
      assert Checked(v, s.doc, s.registry[id].elem);
    }
  }

  /** Discovery keeps every instance bound. */
  lemma DiscoverBound(v: Variant, s: State, target: Elem, fails: set<Elem>)
    requires Bound(v, s) && Sound(v) && WellFormed(s.doc)
    ensures Bound(v, Discover(v, s, target, fails))
  {
    var found := Find(v, s.doc, target);
    assert forall e :: e in found ==> e in s.doc.nodes && Eligible(v, s.doc, e);
    if v.early {
      StampAllBound(v, s, found);
      StartBound(v, StampAll(v, s, found), found, fails);
    } else {
      StartBound(v, s, found, fails);
    }
  }

  lemma {:induction false} DiscoverAllBound(v: Variant, s: State, added: seq<Elem>, fails: set<Elem>)
    requires Bound(v, s) && Sound(v) && WellFormed(s.doc)
    ensures Bound(v, DiscoverAll(v, s, added, fails))
    decreases |added|
  {
    if added != [] {
      DiscoverBound(v, s, added[0], fails);
      var s1 := Discover(v, s, added[0], fails);
      Lifecycle.SameShapeWellFormed(s.doc, s1.doc);
      DiscoverAllBound(v, s1, added[1..], fails);
    }
  }

  /** Removal only drops instances, so it keeps the rest bound. */
  lemma RemoveNodesBound(v: Variant, s: State, removed: seq<Elem>, throws: set<Id>)
    requires Bound(v, s)
    ensures Bound(v, RemoveNodes(v, s, removed, throws).state)
  {
    var r := RemoveNodes(v, s, removed, throws).state;
    assert forall id :: id in r.registry ==> id in s.registry && r.registry[id] == s.registry[id];
  }

  lemma {:induction false} DeliverBound(v: Variant, s: State, batch: seq<Record>, fails: set<Elem>, throws: set<Id>)
    requires Bound(v, s) && Sound(v) && WellFormed(s.doc)
    ensures Bound(v, Deliver(v, s, batch, fails, throws))
    decreases |batch|
  {
    if batch != [] {
      match batch[0]
      case OtherRecord =>
        if !v.stopOnOther {
          DeliverBound(v, s, batch[1..], fails, throws);
        }
      case ChildList(added, removed) =>
        RemoveNodesBound(v, s, removed, throws);
        var t := RemoveNodes(v, s, removed, throws);
        if !t.threw {
          DiscoverAllBound(v, t.state, added, fails);
          var s2 := DiscoverAll(v, t.state, added, fails);
          Lifecycle.SameShapeWellFormed(t.state.doc, s2.doc);
          DeliverBound(v, s2, batch[1..], fails, throws);
        }
    }
  }

  /** A settling import (only early-stamping variants have any) keeps every instance bound. */
  lemma CompleteBound(v: Variant, s: State, k: nat, outcome: Outcome)
    requires Bound(v, s) && Sound(v) && v.early && k < |s.loads| && s.loads[k].elem in s.doc.nodes
    ensures Bound(v, Complete(v, s, k, outcome))
  {
    if outcome.Built? {
      var l := s.loads[k];
      ConstructBound(v, s.(loads := Without(s.loads, k)), l.elem, l.name, outcome.ok);
    }
  }

  /**
   * The steps under which the binding theorem holds: a page edit under a
   * late-stamping variant introduces no asynchronously imported name.
   */
  ghost predicate KeepsEager(v: Variant, s: State, step: Step) {
    step.Edit? && !v.early ==> EagerOnly(v, s.(doc := step.doc))
  }

  lemma ApplyBound(v: Variant, s: State, step: Step)
    requires Bound(v, s) && Sound(v) && Allowed(s, step) && KeepsEager(v, s, step)
    ensures Bound(v, Apply(v, s, step))
  {
    match step
    case Init(fails) => DiscoverBound(v, s, s.doc.root, fails);
    case Batch(records, fails, throws) => DeliverBound(v, s, records, fails, throws);
    case Finish(k, outcome) =>
      if v.early {
        CompleteBound(v, s, k, outcome);
      } else {
        assert false;
      }
    case Edit(d) =>
  }

  /** `Lifecycle.Runs` where every step also keeps the page free of lazily imported names. */
  ghost predicate RunsEager(v: Variant, s: State, steps: seq<Step>, s': State)
    decreases |steps|
  {
    if steps == [] then s' == s
    else Allowed(s, steps[0]) && KeepsEager(v, s, steps[0]) && RunsEager(v, Apply(v, s, steps[0]), steps[1..], s')
  }

  lemma {:induction false} RunsEagerBound(v: Variant, s: State, steps: seq<Step>, s': State)
    requires Bound(v, s) && Sound(v) && RunsEager(v, s, steps, s')
    ensures Bound(v, s') && Lifecycle.Runs(v, s, steps, s')
    decreases |steps|
  {
    if steps != [] {
      ApplyBound(v, s, steps[0]);
      RunsEagerBound(v, Apply(v, s, steps[0]), steps[1..], s');
    }
  }

  /**
   * For a sound variant that stamps during discovery, or whose page never
   * names an asynchronously imported widget: from an untouched page, no
   * element ever has two live instances, and each live instance sits on an
   * element that carries its id.
   */
  lemma OneInstancePerElement(v: Variant, s: State, steps: seq<Step>, s': State)
    requires Lifecycle.Blank(s) && Sound(v) && (v.early || EagerOnly(v, s))
    requires RunsEager(v, s, steps, s')
    ensures AtMostOne(s')
    ensures forall id :: id in s'.registry ==> Checked(v, s'.doc, s'.registry[id].elem) && s'.doc.nodes[s'.registry[id].elem].marks[v.check] == id
    ensures s'.registry.Keys == Lifecycle.RegisteredIds(s'.log) - Lifecycle.DestroyedIds(s'.log)
  {
    RunsEagerBound(v, s, steps, s');
    BoundAtMostOne(v, s');
    Lifecycle.Reachable(v, s, steps, s');
  }

  /** One element's callback stamps it (late variants, synchronous path) and stamps nothing else. */
  lemma BeginChecks(v: Variant, s: State, e: Elem, fails: set<Elem>)
    requires Sound(v) && Tagged(v, s.doc, e)
    requires !v.early ==> !Lazy(v, s.cache, Name(v, s.doc, e))
    ensures forall x :: x in s.doc.nodes ==>
      (Checked(v, Begin(v, s, e, fails).doc, x) <==> Checked(v, s.doc, x) || (!v.early && x == e))
  {
    var r := Begin(v, s, e, fails);
    if !v.early {
      assert v.check in r.doc.nodes[e].marks;
    }
  }

  lemma {:induction false} StartChecks(v: Variant, s: State, found: seq<Elem>, fails: set<Elem>)
    requires Sound(v)
    requires forall e :: e in found ==> Tagged(v, s.doc, e)
    requires !v.early ==> forall e :: e in found ==> !Lazy(v, s.cache, Name(v, s.doc, e))
    ensures forall x :: x in s.doc.nodes ==>
      (Checked(v, Start(v, s, found, fails).doc, x) <==> Checked(v, s.doc, x) || (!v.early && x in found))
    decreases |found|
  {
    if found != [] {
      var e := found[0];
      var s1 := Begin(v, s, e, fails);
      BeginChecks(v, s, e, fails);
      forall x | x in found[1..] ensures Tagged(v, s1.doc, x) && (!v.early ==> !Lazy(v, s1.cache, Name(v, s1.doc, x))) {
        assert Tagged(v, s.doc, x);
        assert Name(v, s1.doc, x) == Name(v, s.doc, x);
      }
      StartChecks(v, s1, found[1..], fails);
    }
  }

  /** After discovery every element it found carries an id where it checks; nothing else changed there. */
  lemma DiscoverChecks(v: Variant, s: State, target: Elem, fails: set<Elem>)
    requires Sound(v) && WellFormed(s.doc) && (v.early || EagerOnly(v, s))
    ensures forall x :: x in s.doc.nodes ==>
      (Checked(v, Discover(v, s, target, fails).doc, x) <==> Checked(v, s.doc, x) || x in Find(v, s.doc, target))
  {
    var found := Find(v, s.doc, target);
    assert forall e :: e in found ==> e in s.doc.nodes && Eligible(v, s.doc, e);
    if v.early {
      var s1 := StampAll(v, s, found);
      forall x | x in s.doc.nodes ensures Checked(v, s1.doc, x) <==> Checked(v, s.doc, x) || x in found {
        if x in found {
          var i :| 0 <= i < |found| && found[i] == x;
          assert StampedWith(v, s.doc.nodes[x].marks, s1.doc.nodes[x].marks, s.next + i);
        }
      }
      assert forall e :: e in found ==> Tagged(v, s1.doc, e);
      StartChecks(v, s1, found, fails);
    } else {
      StartChecks(v, s, found, fails);
    }
  }

  /**
   * Discovery is idempotent for a sound variant that stamps during
   * discovery, or whose page names no asynchronously imported widget: a
   * second pass finds nothing and changes nothing, whichever handlers fail.
   */
  lemma DiscoverIdempotent(v: Variant, s: State, target: Elem, fails: set<Elem>, fails': set<Elem>)
    requires Sound(v) && WellFormed(s.doc) && (v.early || EagerOnly(v, s))
    ensures WellFormed(Discover(v, s, target, fails).doc)
    ensures Find(v, Discover(v, s, target, fails).doc, target) == []
    ensures Discover(v, Discover(v, s, target, fails), target, fails') == Discover(v, s, target, fails)
  {
    var r := Discover(v, s, target, fails);
    Lifecycle.SameShapeWellFormed(s.doc, r.doc);
    NothingLeftToFind(v, s, target, fails);
  }

  /** After discovery no element under the search root is left without an id. */
  lemma NothingLeftToFind(v: Variant, s: State, target: Elem, fails: set<Elem>)
    requires Sound(v) && WellFormed(s.doc) && (v.early || EagerOnly(v, s))
    ensures Find(v, Discover(v, s, target, fails).doc, target) == []
  {
    var r := Discover(v, s, target, fails);
    DiscoverChecks(v, s, target, fails);
    var again := Find(v, r.doc, target);
    if again != [] {
      var x := again[0];
      assert x in again;
      SameShapeBelow(s.doc, r.doc, target, x);
      assert false;
    }
  }

  /** Pages of the same shape search the same subtree. */
  lemma SameShapeBelow(d: Doc, d': Doc, target: Elem, x: Elem)
    requires SameShape(d, d')
    requires SearchRoot(d', target).Some? && Below(d', x, SearchRoot(d', target).value)
    ensures SearchRoot(d, target) == SearchRoot(d', target)
    ensures Below(d, x, SearchRoot(d, target).value)
  {
  }
}
