/**
 * Prop extraction (`collectProps` of both WidgetInstance files) and the
 * attribute writing of `createWidget` (src/utils.ts), its inverse.
 */
module Props {
  import opened Wrappers
  import opened Text
  import opened Dom
  import Codec

  /** The props object handed to a handler. */
  type PropMap = map<string, Codec.Value>

  /** `name.substring(1)`: the attribute name without its first character. */
  function PropKey(name: string): string {
    if name == [] then [] else name[1..]
  }

  predicate Prefixed(a: Attr, prefix: string) {
    StartsWith(a.name, prefix)
  }

  /** Every prefixed attribute's value converts without throwing. */
  predicate AllConvert(h: Codec.Host, prefix: string, attrs: seq<Attr>) {
    forall i :: 0 <= i < |attrs| && Prefixed(attrs[i], prefix) ==> Codec.ConvertType(h, attrs[i].value).Success?
  }

  /** The keys the prefixed attributes name. */
  ghost function PrefixedKeys(prefix: string, attrs: seq<Attr>): set<string> {
    set i | 0 <= i < |attrs| && Prefixed(attrs[i], prefix) :: PropKey(attrs[i].name)
  }

  /** Attribute `i` is the last prefixed attribute whose key is `k`. */
  ghost predicate LastWithKey(prefix: string, attrs: seq<Attr>, i: int, k: string) {
    && 0 <= i < |attrs|
    && Prefixed(attrs[i], prefix)
    && PropKey(attrs[i].name) == k
    && forall j :: i < j < |attrs| && Prefixed(attrs[j], prefix) ==> PropKey(attrs[j].name) != k
  }

  /** The three facts CollectProps promises about its result. */
  ghost predicate Collected(h: Codec.Host, prefix: string, attrs: seq<Attr>, r: Result<PropMap, Codec.Error>) {
    && (r.Success? <==> AllConvert(h, prefix, attrs))
    && (r.Success? ==> r.value.Keys == PrefixedKeys(prefix, attrs))
    && (r.Success? ==> forall k :: k in r.value ==>
          exists i :: LastWithKey(prefix, attrs, i, k) && Codec.ConvertType(h, attrs[i].value) == Success(r.value[k]))
  }

  /**
   * collectProps: the attributes are visited in order; each one whose name
   * starts with the prefix sets `obj[name.substring(1)] = convertType(value)`,
   * and a throwing conversion aborts the whole extraction.
   */
  function CollectProps(h: Codec.Host, prefix: string, attrs: seq<Attr>): (r: Result<PropMap, Codec.Error>)
    ensures r.Success? <==> AllConvert(h, prefix, attrs)
    ensures r.Success? ==> r.value.Keys == PrefixedKeys(prefix, attrs)
    ensures r.Success? ==> forall k :: k in r.value ==>
      exists i :: LastWithKey(prefix, attrs, i, k) && Codec.ConvertType(h, attrs[i].value) == Success(r.value[k])
  {
    if attrs == [] then
      Success(map[])
    else
      var acc := CollectProps(h, prefix, attrs[..|attrs| - 1]);
      var r := Visit(h, prefix, acc, attrs[|attrs| - 1]);
      VisitExtends(h, prefix, attrs, acc);
      r
  }

  /** One iteration of the `forEach` in collectProps. */
  function Visit(h: Codec.Host, prefix: string, acc: Result<PropMap, Codec.Error>, a: Attr): Result<PropMap, Codec.Error> {
    if acc.Failure? then acc
    else if Prefixed(a, prefix) then
      match Codec.ConvertType(h, a.value)
      case Failure(e) => Failure(e)
      case Success(v) => Success(acc.value[PropKey(a.name) := v])
    else acc
  }

  lemma VisitExtends(h: Codec.Host, prefix: string, attrs: seq<Attr>, acc: Result<PropMap, Codec.Error>)
    requires |attrs| > 0
    requires Collected(h, prefix, attrs[..|attrs| - 1], acc)
    ensures Collected(h, prefix, attrs, Visit(h, prefix, acc, attrs[|attrs| - 1]))
  {
    var init := attrs[..|attrs| - 1];
    var a := attrs[|attrs| - 1];
    var r := Visit(h, prefix, acc, a);
    AllConvertSnoc(h, prefix, attrs);
    PrefixedKeysSnoc(prefix, attrs);
    if r.Success? {
      VisitKeepsWitnesses(h, prefix, attrs, acc);
    }
  }

  lemma AllConvertSnoc(h: Codec.Host, prefix: string, attrs: seq<Attr>)
    requires |attrs| > 0
    ensures AllConvert(h, prefix, attrs) <==>
      && AllConvert(h, prefix, attrs[..|attrs| - 1])
      && (Prefixed(attrs[|attrs| - 1], prefix) ==> Codec.ConvertType(h, attrs[|attrs| - 1].value).Success?)
  {
    var init := attrs[..|attrs| - 1];
    assert forall i :: 0 <= i < |init| ==> init[i] == attrs[i];
  }

  lemma PrefixedKeysSnoc(prefix: string, attrs: seq<Attr>)
    requires |attrs| > 0
    ensures PrefixedKeys(prefix, attrs) ==
      PrefixedKeys(prefix, attrs[..|attrs| - 1])
      + (if Prefixed(attrs[|attrs| - 1], prefix) then {PropKey(attrs[|attrs| - 1].name)} else {})
  {
    var init := attrs[..|attrs| - 1];
    assert forall i :: 0 <= i < |init| ==> init[i] == attrs[i];
  }

  lemma VisitKeepsWitnesses(h: Codec.Host, prefix: string, attrs: seq<Attr>, acc: Result<PropMap, Codec.Error>)
    requires |attrs| > 0
    requires Collected(h, prefix, attrs[..|attrs| - 1], acc)
    requires Visit(h, prefix, acc, attrs[|attrs| - 1]).Success?
    ensures var r := Visit(h, prefix, acc, attrs[|attrs| - 1]);
      forall k :: k in r.value ==>
        exists i :: LastWithKey(prefix, attrs, i, k) && Codec.ConvertType(h, attrs[i].value) == Success(r.value[k])
  {
    var init := attrs[..|attrs| - 1];
    var a := attrs[|attrs| - 1];
    var r := Visit(h, prefix, acc, a);
    forall k | k in r.value
      ensures exists i :: LastWithKey(prefix, attrs, i, k) && Codec.ConvertType(h, attrs[i].value) == Success(r.value[k])
    {
      if Prefixed(a, prefix) && k == PropKey(a.name) {
        assert LastWithKey(prefix, attrs, |attrs| - 1, k);
      } else {
        assert r.value[k] == acc.value[k];
        var i :| LastWithKey(prefix, init, i, k) && Codec.ConvertType(h, init[i].value) == Success(acc.value[k]);
        LastWithKeyExtends(prefix, attrs, i, k);
      }
    }
  }

  lemma LastWithKeyExtends(prefix: string, attrs: seq<Attr>, i: int, k: string)
    requires |attrs| > 0
    requires LastWithKey(prefix, attrs[..|attrs| - 1], i, k)
    requires Prefixed(attrs[|attrs| - 1], prefix) ==> PropKey(attrs[|attrs| - 1].name) != k
    ensures LastWithKey(prefix, attrs, i, k)
    ensures attrs[i] == attrs[..|attrs| - 1][i]
  {
    var init := attrs[..|attrs| - 1];
    forall j | i < j < |attrs| && Prefixed(attrs[j], prefix)
      ensures PropKey(attrs[j].name) != k
    {
      if j < |init| {
        assert attrs[j] == init[j];
      }
    }
  }

  /** Two prefixed names with the same key are the same name, whenever the prefix is not empty. */
  lemma KeyDeterminesName(prefix: string, a: Attr, b: Attr)
    requires prefix != []
    requires Prefixed(a, prefix) && Prefixed(b, prefix)
    requires PropKey(a.name) == PropKey(b.name)
    ensures a.name == b.name
  {
    assert a.name[0] == a.name[..|prefix|][0] == prefix[0];
    assert b.name[0] == b.name[..|prefix|][0] == prefix[0];
    assert a.name == [a.name[0]] + a.name[1..];
    assert b.name == [b.name[0]] + b.name[1..];
  }

  /**
   * On an element (attribute names unique) every prefixed attribute
   * contributes its own converted value under its own key.
   */
  lemma {:induction false} PropsOfDistinctAttributes(h: Codec.Host, prefix: string, attrs: seq<Attr>)
    requires prefix != []
    requires DistinctNames(attrs)
    requires CollectProps(h, prefix, attrs).Success?
    ensures var props := CollectProps(h, prefix, attrs).value;
      forall i :: 0 <= i < |attrs| && Prefixed(attrs[i], prefix) ==>
        PropKey(attrs[i].name) in props && Success(props[PropKey(attrs[i].name)]) == Codec.ConvertType(h, attrs[i].value)
  {
    var props := CollectProps(h, prefix, attrs).value;
    forall i | 0 <= i < |attrs| && Prefixed(attrs[i], prefix)
      ensures PropKey(attrs[i].name) in props && Success(props[PropKey(attrs[i].name)]) == Codec.ConvertType(h, attrs[i].value)
    {
      PropOfAttribute(h, prefix, attrs, i);
    }
  }

  /** PropsOfDistinctAttributes for one attribute. */
  lemma PropOfAttribute(h: Codec.Host, prefix: string, attrs: seq<Attr>, i: int)
    requires prefix != []
    requires DistinctNames(attrs)
    requires CollectProps(h, prefix, attrs).Success?
    requires 0 <= i < |attrs| && Prefixed(attrs[i], prefix)
    ensures var props := CollectProps(h, prefix, attrs).value;
      PropKey(attrs[i].name) in props && Success(props[PropKey(attrs[i].name)]) == Codec.ConvertType(h, attrs[i].value)
  {
    var props := CollectProps(h, prefix, attrs).value;
    var k := PropKey(attrs[i].name);
    assert k in PrefixedKeys(prefix, attrs);
    var i' :| LastWithKey(prefix, attrs, i', k) && Codec.ConvertType(h, attrs[i'].value) == Success(props[k]);
    KeyDeterminesName(prefix, attrs[i], attrs[i']);
  }

  /** Number of attributes whose name starts with the prefix. */
  function CountPrefixed(prefix: string, attrs: seq<Attr>): nat {
    if attrs == [] then 0
    else CountPrefixed(prefix, attrs[..|attrs| - 1]) + (if Prefixed(attrs[|attrs| - 1], prefix) then 1 else 0)
  }

  /** Distinct prefixed names give distinct keys: as many keys as prefixed attributes. */
  lemma {:induction false} PrefixedKeysCount(prefix: string, attrs: seq<Attr>)
    requires prefix != []
    requires DistinctNames(attrs)
    ensures |PrefixedKeys(prefix, attrs)| == CountPrefixed(prefix, attrs)
  {
    if attrs != [] {
      var init := attrs[..|attrs| - 1];
      var a := attrs[|attrs| - 1];
      assert DistinctNames(init);
      PrefixedKeysCount(prefix, init);
      PrefixedKeysSnoc(prefix, attrs);
      if Prefixed(a, prefix) {
        assert PropKey(a.name) !in PrefixedKeys(prefix, init) by {
          if PropKey(a.name) in PrefixedKeys(prefix, init) {
            var i :| 0 <= i < |init| && Prefixed(init[i], prefix) && PropKey(init[i].name) == PropKey(a.name);
            assert attrs[i] == init[i];
            KeyDeterminesName(prefix, init[i], a);
          }
        }
      }
    }
  }

  /** The props object has exactly one key per prefixed attribute of the element. */
  lemma PropCount(h: Codec.Host, prefix: string, attrs: seq<Attr>)
    requires prefix != []
    requires DistinctNames(attrs)
    requires CollectProps(h, prefix, attrs).Success?
    ensures |CollectProps(h, prefix, attrs).value| == CountPrefixed(prefix, attrs)
  {
    PrefixedKeysCount(prefix, attrs);
    assert CollectProps(h, prefix, attrs).value.Keys == PrefixedKeys(prefix, attrs);
  }

  /** With a one-character prefix the key is the name with the prefix removed. */
  lemma OneCharPrefixKey(prefix: string, name: string)
    requires |prefix| == 1 && StartsWith(name, prefix)
    ensures PropKey(name) == name[|prefix|..]
  {
  }

  /** With a longer prefix only its first character is dropped: ":p-" keeps "p-" in the key. */
  lemma LongerPrefixKeepsTail()
    ensures StartsWith(":p-size", ":p-") && PropKey(":p-size") == "p-size"
  {
    assert ":p-size"[..3] == ":p-";
  }

  /** The attribute name `createWidget` writes for a prop key (after the DOM lower-cases it). */
  function PropAttrName(prefix: string, key: string): string {
    LowerAscii(prefix + key)
  }

  /** No later entry writes the same attribute as entry `i`. */
  ghost predicate LastEntry(prefix: string, entries: seq<(string, string)>, i: int)
    requires 0 <= i < |entries|
  {
    forall j :: i < j < |entries| ==> PropAttrName(prefix, entries[j].0) != PropAttrName(prefix, entries[i].0)
  }

  /** What writing `entries` over `attrs` leaves: see WriteProps. */
  ghost predicate Wrote(attrs: seq<Attr>, prefix: string, entries: seq<(string, string)>, r: seq<Attr>) {
    && DistinctNames(r)
    && (forall a :: a in r ==>
          a in attrs || exists i :: 0 <= i < |entries| && a == Attr(PropAttrName(prefix, entries[i].0), entries[i].1))
    && (forall i :: 0 <= i < |entries| && LastEntry(prefix, entries, i) ==>
          Lookup(r, PropAttrName(prefix, entries[i].0)) == Some(entries[i].1))
    && (forall n :: (forall i :: 0 <= i < |entries| ==> n != PropAttrName(prefix, entries[i].0)) ==>
          Lookup(r, n) == Lookup(attrs, n))
  }

  /**
   * The props loop of createWidget: `setAttribute(prefix + key, value)` for
   * every entry in order. Each entry's attribute ends up holding its value
   * unless a later entry overwrites it, and nothing else is touched.
   */
  function WriteProps(attrs: seq<Attr>, prefix: string, entries: seq<(string, string)>): (r: seq<Attr>)
    requires DistinctNames(attrs)
    ensures DistinctNames(r)
    ensures forall a :: a in r ==>
      a in attrs || exists i :: 0 <= i < |entries| && a == Attr(PropAttrName(prefix, entries[i].0), entries[i].1)
    ensures forall i :: 0 <= i < |entries| && LastEntry(prefix, entries, i) ==>
      Lookup(r, PropAttrName(prefix, entries[i].0)) == Some(entries[i].1)
    ensures forall n :: (forall i :: 0 <= i < |entries| ==> n != PropAttrName(prefix, entries[i].0)) ==>
      Lookup(r, n) == Lookup(attrs, n)
    decreases |entries|
  {
    if entries == [] then attrs
    else
      var next := SetAttribute(attrs, prefix + entries[0].0, entries[0].1);
      var r := WriteProps(next, prefix, entries[1..]);
      WroteCons(attrs, prefix, entries, next, r);
      r
  }

  lemma WroteCons(attrs: seq<Attr>, prefix: string, entries: seq<(string, string)>, next: seq<Attr>, r: seq<Attr>)
    requires DistinctNames(attrs) && |entries| > 0
    requires next == SetAttribute(attrs, prefix + entries[0].0, entries[0].1)
    requires Wrote(next, prefix, entries[1..], r)
    ensures Wrote(attrs, prefix, entries, r)
  {
    var rest := entries[1..];
    var n0 := PropAttrName(prefix, entries[0].0);
    assert forall i :: 1 <= i < |entries| ==> rest[i - 1] == entries[i];
    forall a | a in r
      ensures a in attrs || exists i :: 0 <= i < |entries| && a == Attr(PropAttrName(prefix, entries[i].0), entries[i].1)
    {
      if a !in next {
        var i :| 0 <= i < |rest| && a == Attr(PropAttrName(prefix, rest[i].0), rest[i].1);
        assert a == Attr(PropAttrName(prefix, entries[i + 1].0), entries[i + 1].1);
      } else if a !in attrs {
        assert a == Attr(n0, entries[0].1);
      }
    }
    forall i | 0 <= i < |entries| && LastEntry(prefix, entries, i)
      ensures Lookup(r, PropAttrName(prefix, entries[i].0)) == Some(entries[i].1)
    {
      if i == 0 {
        assert forall j :: 0 <= j < |rest| ==> n0 != PropAttrName(prefix, rest[j].0) by {
          forall j | 0 <= j < |rest|
            ensures n0 != PropAttrName(prefix, rest[j].0)
          {
            assert rest[j] == entries[j + 1];
          }
        }
      } else {
        assert LastEntry(prefix, rest, i - 1) by {
          forall j | i - 1 < j < |rest|
            ensures PropAttrName(prefix, rest[j].0) != PropAttrName(prefix, rest[i - 1].0)
          {
            assert rest[j] == entries[j + 1];
          }
        }
      }
    }
    forall n | forall i :: 0 <= i < |entries| ==> n != PropAttrName(prefix, entries[i].0)
      ensures Lookup(r, n) == Lookup(attrs, n)
    {
      assert n != n0;
      assert forall i :: 0 <= i < |rest| ==> n != PropAttrName(prefix, rest[i].0) by {
        forall i | 0 <= i < |rest|
          ensures n != PropAttrName(prefix, rest[i].0)
        {
          assert rest[i] == entries[i + 1];
        }
      }
    }
  }

  /**
   * createWidget's attributes on a fresh element: the widget name when it is
   * not empty, the class when it is not empty, then one attribute per prop.
   * Tag name and inner HTML do not touch the attribute list.
   */
  function CreateWidget(nameAttr: string, prefix: string, name: string, className: string,
                        entries: seq<(string, string)>): (attrs: seq<Attr>)
    ensures DistinctNames(attrs)
    ensures forall a :: a in attrs ==>
      || (name != [] && a == Attr(LowerAscii(nameAttr), name))
      || (className != [] && a == Attr("class", className))
      || exists i :: 0 <= i < |entries| && a == Attr(PropAttrName(prefix, entries[i].0), entries[i].1)
    ensures forall i :: 0 <= i < |entries| && LastEntry(prefix, entries, i) ==>
      Lookup(attrs, PropAttrName(prefix, entries[i].0)) == Some(entries[i].1)
    // A non-empty name and class are on the element unless a prop writes the same attribute.
    ensures name != [] && (className == [] || LowerAscii(nameAttr) != "class") && Unwritten(prefix, entries, LowerAscii(nameAttr)) ==>
      Lookup(attrs, LowerAscii(nameAttr)) == Some(name)
    ensures className != [] && Unwritten(prefix, entries, "class") ==> Lookup(attrs, "class") == Some(className)
  {
    WriteProps(NamedAttrs(nameAttr, name, className), prefix, entries)
  }

  /** No entry's attribute is named `n`. */
  ghost predicate Unwritten(prefix: string, entries: seq<(string, string)>, n: string) {
    forall i :: 0 <= i < |entries| ==> n != PropAttrName(prefix, entries[i].0)
  }

  /** The name and class attributes createWidget sets before the props. */
  function NamedAttrs(nameAttr: string, name: string, className: string): (attrs: seq<Attr>)
    ensures DistinctNames(attrs)
    ensures forall a :: a in attrs ==>
      || (name != [] && a == Attr(LowerAscii(nameAttr), name))
      || (className != [] && a == Attr("class", className))
    ensures name != [] && (className == [] || LowerAscii(nameAttr) != "class") ==> Lookup(attrs, LowerAscii(nameAttr)) == Some(name)
    ensures className != [] ==> Lookup(attrs, "class") == Some(className)
  {
    var a0 := if name != [] then SetAttribute([], nameAttr, name) else [];
    LowerAsciiFixesLowerText("class");
    if className != [] then SetAttribute(a0, "class", className) else a0
  }

  /** Every entry's attribute is on the element, with the entry's value. */
  ghost predicate HoldsEntries(attrs: seq<Attr>, prefix: string, entries: seq<(string, string)>) {
    forall i :: 0 <= i < |entries| ==> Attr(prefix + entries[i].0, entries[i].1) in attrs
  }

  /** Every prefixed attribute of the element is one of the entries' attributes. */
  ghost predicate OnlyEntriesPrefixed(attrs: seq<Attr>, prefix: string, entries: seq<(string, string)>) {
    forall j :: 0 <= j < |attrs| && Prefixed(attrs[j], prefix) ==>
      exists i :: 0 <= i < |entries| && attrs[j] == Attr(prefix + entries[i].0, entries[i].1)
  }

  /** Lower-case keys behind a lower-case one-character prefix are written verbatim and read back verbatim. */
  lemma EntryNames(prefix: string, entries: seq<(string, string)>)
    requires |prefix| == 1 && HasNoUpperAscii(prefix)
    requires forall i :: 0 <= i < |entries| ==> HasNoUpperAscii(entries[i].0)
    ensures forall i :: 0 <= i < |entries| ==>
      && PropAttrName(prefix, entries[i].0) == prefix + entries[i].0
      && Prefixed(Attr(prefix + entries[i].0, entries[i].1), prefix)
      && PropKey(prefix + entries[i].0) == entries[i].0
  {
    forall i | 0 <= i < |entries|
      ensures PropAttrName(prefix, entries[i].0) == prefix + entries[i].0
      ensures Prefixed(Attr(prefix + entries[i].0, entries[i].1), prefix)
      ensures PropKey(prefix + entries[i].0) == entries[i].0
    {
      LowerAsciiFixesLowerText(prefix + entries[i].0);
      assert (prefix + entries[i].0)[..1] == prefix;
    }
  }

  lemma CreatedHoldsEntries(nameAttr: string, prefix: string, name: string, className: string,
                            entries: seq<(string, string)>)
    requires |prefix| == 1 && HasNoUpperAscii(prefix)
    requires forall i :: 0 <= i < |entries| ==> HasNoUpperAscii(entries[i].0)
    requires forall i, j :: 0 <= i < j < |entries| ==> entries[i].0 != entries[j].0
    ensures HoldsEntries(CreateWidget(nameAttr, prefix, name, className, entries), prefix, entries)
  {
    var attrs := CreateWidget(nameAttr, prefix, name, className, entries);
    EntryNames(prefix, entries);
    forall i | 0 <= i < |entries|
      ensures Attr(prefix + entries[i].0, entries[i].1) in attrs
    {
      forall j | i < j < |entries|
        ensures PropAttrName(prefix, entries[j].0) != PropAttrName(prefix, entries[i].0)
      {
        assert (prefix + entries[j].0)[1..] == entries[j].0;
        assert (prefix + entries[i].0)[1..] == entries[i].0;
      }
      assert LastEntry(prefix, entries, i);
    }
  }

  lemma CreatedOnlyEntriesPrefixed(nameAttr: string, prefix: string, name: string, className: string,
                                   entries: seq<(string, string)>)
    requires |prefix| == 1 && HasNoUpperAscii(prefix)
    requires forall i :: 0 <= i < |entries| ==> HasNoUpperAscii(entries[i].0)
    requires name != [] ==> !StartsWith(LowerAscii(nameAttr), prefix)
    requires className != [] ==> !StartsWith("class", prefix)
    ensures OnlyEntriesPrefixed(CreateWidget(nameAttr, prefix, name, className, entries), prefix, entries)
  {
    var attrs := CreateWidget(nameAttr, prefix, name, className, entries);
    EntryNames(prefix, entries);
    forall j | 0 <= j < |attrs| && Prefixed(attrs[j], prefix)
      ensures exists i :: 0 <= i < |entries| && attrs[j] == Attr(prefix + entries[i].0, entries[i].1)
    {
      var a := attrs[j];
      assert a in attrs;
      assert !(name != [] && a == Attr(LowerAscii(nameAttr), name));
      assert !(className != [] && a == Attr("class", className));
      var i :| 0 <= i < |entries| && a == Attr(PropAttrName(prefix, entries[i].0), entries[i].1);
      assert a == Attr(prefix + entries[i].0, entries[i].1);
    }
  }

  /** The entries' attributes are on the element, and no other prefixed attribute is. */
  ghost predicate ExactlyEntries(prefix: string, attrs: seq<Attr>, entries: seq<(string, string)>) {
    && |prefix| == 1 && DistinctNames(attrs)
    && (forall i :: 0 <= i < |entries| ==>
          Prefixed(Attr(prefix + entries[i].0, entries[i].1), prefix) && PropKey(prefix + entries[i].0) == entries[i].0)
    && HoldsEntries(attrs, prefix, entries)
    && OnlyEntriesPrefixed(attrs, prefix, entries)
  }

  /** collectProps over an element whose prefixed attributes are exactly the entries. */
  lemma CollectEntries(h: Codec.Host, prefix: string, attrs: seq<Attr>, entries: seq<(string, string)>)
    requires |prefix| == 1 && DistinctNames(attrs)
    requires forall i :: 0 <= i < |entries| ==>
      Prefixed(Attr(prefix + entries[i].0, entries[i].1), prefix) && PropKey(prefix + entries[i].0) == entries[i].0
    requires HoldsEntries(attrs, prefix, entries)
    requires OnlyEntriesPrefixed(attrs, prefix, entries)
    ensures var r := CollectProps(h, prefix, attrs);
      && (r.Success? <==> forall i :: 0 <= i < |entries| ==> Codec.ConvertType(h, entries[i].1).Success?)
      && (r.Success? ==> r.value.Keys == set i | 0 <= i < |entries| :: entries[i].0)
      && (r.Success? ==> forall i :: 0 <= i < |entries| ==>
            entries[i].0 in r.value && Success(r.value[entries[i].0]) == Codec.ConvertType(h, entries[i].1))
  {
    assert ExactlyEntries(prefix, attrs, entries);
    EntriesConvert(h, prefix, attrs, entries);
    if CollectProps(h, prefix, attrs).Success? {
      EntriesKeys(prefix, attrs, entries);
      EntriesValues(h, prefix, attrs, entries);
    }
  }

  lemma EntriesConvert(h: Codec.Host, prefix: string, attrs: seq<Attr>, entries: seq<(string, string)>)
    requires ExactlyEntries(prefix, attrs, entries)
    ensures CollectProps(h, prefix, attrs).Success? <==>
      forall i :: 0 <= i < |entries| ==> Codec.ConvertType(h, entries[i].1).Success?
  {
    if AllConvert(h, prefix, attrs) {
      forall i | 0 <= i < |entries|
        ensures Codec.ConvertType(h, entries[i].1).Success?
      {
        var j :| 0 <= j < |attrs| && attrs[j] == Attr(prefix + entries[i].0, entries[i].1);
      }
    }
  }

  lemma EntriesKeys(prefix: string, attrs: seq<Attr>, entries: seq<(string, string)>)
    requires ExactlyEntries(prefix, attrs, entries)
    ensures PrefixedKeys(prefix, attrs) == set i | 0 <= i < |entries| :: entries[i].0
  {
    forall k | k in PrefixedKeys(prefix, attrs)
      ensures k in set i | 0 <= i < |entries| :: entries[i].0
    {
      var j :| 0 <= j < |attrs| && Prefixed(attrs[j], prefix) && PropKey(attrs[j].name) == k;
      var i :| 0 <= i < |entries| && attrs[j] == Attr(prefix + entries[i].0, entries[i].1);
    }
    forall i | 0 <= i < |entries|
      ensures entries[i].0 in PrefixedKeys(prefix, attrs)
    {
      var j :| 0 <= j < |attrs| && attrs[j] == Attr(prefix + entries[i].0, entries[i].1);
    }
  }

  lemma EntriesValues(h: Codec.Host, prefix: string, attrs: seq<Attr>, entries: seq<(string, string)>)
    requires ExactlyEntries(prefix, attrs, entries)
    requires CollectProps(h, prefix, attrs).Success?
    ensures var r := CollectProps(h, prefix, attrs);
      forall i :: 0 <= i < |entries| ==>
        entries[i].0 in r.value && Success(r.value[entries[i].0]) == Codec.ConvertType(h, entries[i].1)
  {
    var r := CollectProps(h, prefix, attrs);
    PropsOfDistinctAttributes(h, prefix, attrs);
    forall i | 0 <= i < |entries|
      ensures entries[i].0 in r.value && Success(r.value[entries[i].0]) == Codec.ConvertType(h, entries[i].1)
    {
      var j :| 0 <= j < |attrs| && attrs[j] == Attr(prefix + entries[i].0, entries[i].1);
    }
  }

  /**
   * Round trip between createWidget and collectProps: with a one-character,
   * lower-case prefix that neither the name attribute nor `class` starts
   * with, and distinct lower-case keys, the props read back are exactly the
   * keys written, each with its converted value.
   */
  lemma CreateThenCollect(h: Codec.Host, nameAttr: string, prefix: string, name: string,
                          className: string, entries: seq<(string, string)>)
    requires |prefix| == 1 && HasNoUpperAscii(prefix)
    requires forall i :: 0 <= i < |entries| ==> HasNoUpperAscii(entries[i].0)
    requires forall i, j :: 0 <= i < j < |entries| ==> entries[i].0 != entries[j].0
    requires name != [] ==> !StartsWith(LowerAscii(nameAttr), prefix)
    requires className != [] ==> !StartsWith("class", prefix)
    ensures var r := CollectProps(h, prefix, CreateWidget(nameAttr, prefix, name, className, entries));
      && (r.Success? <==> forall i :: 0 <= i < |entries| ==> Codec.ConvertType(h, entries[i].1).Success?)
      && (r.Success? ==> r.value.Keys == set i | 0 <= i < |entries| :: entries[i].0)
      && (r.Success? ==> forall i :: 0 <= i < |entries| ==>
            entries[i].0 in r.value && Success(r.value[entries[i].0]) == Codec.ConvertType(h, entries[i].1))
  {
    EntryNames(prefix, entries);
    CreatedHoldsEntries(nameAttr, prefix, name, className, entries);
    CreatedOnlyEntriesPrefixed(nameAttr, prefix, name, className, entries);
    CollectEntries(h, prefix, CreateWidget(nameAttr, prefix, name, className, entries), entries);
  }
}
