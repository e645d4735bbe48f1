/**
 * The slice of the document the engine touches: element handles and the
 * ordered attribute list of an element, with `getAttribute` and
 * `setAttribute` as the DOM defines them for HTML elements.
 */
module Dom {
  import opened Wrappers
  import opened Text

  /** An element handle; elements are compared by identity only. */
  type Elem = nat

  /** One attribute of an element, as `element.attributes` lists it. */
  datatype Attr = Attr(name: string, value: string)

  /** Attribute names are unique on an element. */
  predicate DistinctNames(attrs: seq<Attr>) {
    forall i, j :: 0 <= i < j < |attrs| ==> attrs[i].name != attrs[j].name
  }

  /** `getAttribute(name)`: the value of the attribute with that exact name. */
  function Lookup(attrs: seq<Attr>, name: string): (r: Option<string>)
    ensures r.Some? <==> exists i :: 0 <= i < |attrs| && attrs[i].name == name
    ensures r.Some? ==> Attr(name, r.value) in attrs
    ensures DistinctNames(attrs) ==> forall i :: 0 <= i < |attrs| && attrs[i].name == name ==> r == Some(attrs[i].value)
  {
    if attrs == [] then None
    else if attrs[|attrs| - 1].name == name then Some(attrs[|attrs| - 1].value)
    else Lookup(attrs[..|attrs| - 1], name)
  }

  /**
   * `setAttribute(name, value)` on an HTML element: the name is ASCII
   * lower-cased; an existing attribute of that name keeps its position and
   * takes the new value, otherwise the attribute is appended.
   */
  function SetAttribute(attrs: seq<Attr>, name: string, value: string): (r: seq<Attr>)
    requires DistinctNames(attrs)
    ensures DistinctNames(r)
    ensures Lookup(r, LowerAscii(name)) == Some(value)
    ensures forall n :: n != LowerAscii(name) ==> Lookup(r, n) == Lookup(attrs, n)
    ensures forall a :: a in r ==> a in attrs || a == Attr(LowerAscii(name), value)
  {
    var n := LowerAscii(name);
    if Lookup(attrs, n).Some? then
      var i :| 0 <= i < |attrs| && attrs[i].name == n;
      var r := attrs[i := Attr(n, value)];
      assert forall k :: 0 <= k < |r| && k != i ==> r[k] == attrs[k];
      LookupAfterReplace(attrs, i, value);
      r
    else
      var r := attrs + [Attr(n, value)];
      assert r[..|r| - 1] == attrs;
      r
  }

  lemma LookupAfterReplace(attrs: seq<Attr>, i: nat, value: string)
    requires DistinctNames(attrs) && i < |attrs|
    ensures DistinctNames(attrs[i := Attr(attrs[i].name, value)])
    ensures Lookup(attrs[i := Attr(attrs[i].name, value)], attrs[i].name) == Some(value)
    ensures forall n :: n != attrs[i].name ==> Lookup(attrs[i := Attr(attrs[i].name, value)], n) == Lookup(attrs, n)
  {
    var r := attrs[i := Attr(attrs[i].name, value)];
    assert DistinctNames(r) by {
      assert forall k :: 0 <= k < |r| ==> r[k].name == attrs[k].name;
    }
    assert r[i] == Attr(attrs[i].name, value);
    forall n | n != attrs[i].name
      ensures Lookup(r, n) == Lookup(attrs, n)
    {
      if k :| 0 <= k < |attrs| && attrs[k].name == n {
        assert r[k] == attrs[k];
      } else {
        assert forall k :: 0 <= k < |r| ==> r[k].name != n;
      }
    }
  }
}
