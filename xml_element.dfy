/**
 * The element tree the XML library hands back (its non-compact form) and
 * the JavaScript object operations the patching steps perform on it. Attributes are
 * kept in insertion order, as a JavaScript object keeps its (non-numeric)
 * keys: assigning an existing key overwrites it in place, a new key is
 * appended.
 */
module XmlElement {
  import opened Base

  /** An attribute object: names and values in key order (the operations below serve any JavaScript object kept as its entries). */
  type Attributes = seq<(string, string)>

  /**
   * One node of the tree: its tag name, attributes and children when
   * present, and everything else the library records (node type, text,
   * comment, CDATA) carried along as `other`.
   */
  datatype Element = Element(name: Option<string>, attributes: Option<Attributes>, elements: Option<seq<Element>>, other: string)

  /** `attrs[key]`: the value of the first entry named `key`. */
  function Get<V>(attrs: seq<(string, V)>, key: string): (r: Option<V>)
    ensures r.Some? <==> exists i | 0 <= i < |attrs| :: attrs[i].0 == key
  {
    if |attrs| == 0 then None
    else if attrs[0].0 == key then Some(attrs[0].1)
    else
      var r := Get(attrs[1..], key);
      assert forall i | 1 <= i < |attrs| :: attrs[i] == attrs[1..][i - 1];
      r
  }

  /** `attrs[key] = value`: overwrite the entry in place, or append a new one. */
  function Put<V>(attrs: seq<(string, V)>, key: string, value: V): (r: seq<(string, V)>)
  {
    if |attrs| == 0 then [(key, value)]
    else if attrs[0].0 == key then [(key, value)] + attrs[1..]
    else [attrs[0]] + Put(attrs[1..], key, value)
  }

  /** The keys of an attribute object, in order. */
  function Keys<V>(attrs: seq<(string, V)>): (r: seq<string>)
    ensures |r| == |attrs|
  {
    if |attrs| == 0 then [] else [attrs[0].0] + Keys(attrs[1..])
  }

  /** After `attrs[key] = value`, reading `key` gives `value`. */
  lemma {:induction false} PutGet<V>(attrs: seq<(string, V)>, key: string, value: V)
    ensures Get(Put(attrs, key, value), key) == Some(value)
  {
    if |attrs| > 0 && attrs[0].0 != key {
      PutGet(attrs[1..], key, value);
      assert Put(attrs, key, value)[1..] == Put(attrs[1..], key, value);
    }
  }

  /** After `attrs[key] = value`, every other key reads as before. */
  lemma {:induction false} PutGetOther<V>(attrs: seq<(string, V)>, key: string, value: V, other: string)
    requires other != key
    ensures Get(Put(attrs, key, value), other) == Get(attrs, other)
  {
    if |attrs| > 0 && attrs[0].0 != key {
      PutGetOther(attrs[1..], key, value, other);
      assert Put(attrs, key, value)[1..] == Put(attrs[1..], key, value);
    } else if |attrs| > 0 {
      assert Put(attrs, key, value)[1..] == attrs[1..];
    }
  }

  /** The keys keep their order; `key` is appended when it was new. */
  lemma {:induction false} PutKeys<V>(attrs: seq<(string, V)>, key: string, value: V)
    ensures Keys(Put(attrs, key, value)) == if Get(attrs, key).Some? then Keys(attrs) else Keys(attrs) + [key]
  {
    if |attrs| > 0 && attrs[0].0 != key {
      PutKeys(attrs[1..], key, value);
      assert Put(attrs, key, value)[1..] == Put(attrs[1..], key, value);
    } else if |attrs| > 0 {
      assert Put(attrs, key, value)[1..] == attrs[1..];
    }
  }

  /** Assigning a key the value it already reads as changes nothing. */
  lemma {:induction false} PutSame<V>(attrs: seq<(string, V)>, key: string, value: V)
    requires Get(attrs, key) == Some(value)
    ensures Put(attrs, key, value) == attrs
  {
    if attrs[0].0 != key {
      PutSame(attrs[1..], key, value);
    } else {
      assert attrs == [attrs[0]] + attrs[1..];
    }
  }

  /** Assigning the same value twice is assigning it once. */
  lemma PutTwice<V>(attrs: seq<(string, V)>, key: string, value: V)
    ensures Put(Put(attrs, key, value), key, value) == Put(attrs, key, value)
  {
    PutGet(attrs, key, value);
    PutSame(Put(attrs, key, value), key, value);
  }

  /** `delete attrs[key]`: the entry goes, the others keep their order. */
  function Delete<V>(attrs: seq<(string, V)>, key: string): (r: seq<(string, V)>)
    ensures Get(r, key).None?
  {
    if |attrs| == 0 then []
    else if attrs[0].0 == key then Delete(attrs[1..], key)
    else [attrs[0]] + Delete(attrs[1..], key)
  }

  /** Deleting a key leaves every other key reading as before. */
  lemma {:induction false} DeleteGetOther<V>(attrs: seq<(string, V)>, key: string, other: string)
    requires other != key
    ensures Get(Delete(attrs, key), other) == Get(attrs, other)
  {
    if |attrs| > 0 {
      DeleteGetOther(attrs[1..], key, other);
      if attrs[0].0 != key {
        assert Delete(attrs, key)[1..] == Delete(attrs[1..], key);
      }
    }
  }

  /** Deleting a key that is not there changes nothing. */
  lemma {:induction false} DeleteAbsent<V>(attrs: seq<(string, V)>, key: string)
    requires Get(attrs, key).None?
    ensures Delete(attrs, key) == attrs
  {
    if |attrs| > 0 {
      assert attrs[0].0 != key;
      DeleteAbsent(attrs[1..], key);
      assert attrs == [attrs[0]] + attrs[1..];
    }
  }

  /** The element has the tag name `name`. */
  predicate Named(el: Element, name: string) {
    el.name == Some(name)
  }

  /** `elements.find(el => el.name === name)`, as the index of the first such element. */
  function FindNamed(elements: seq<Element>, name: string): (r: Option<nat>)
    ensures r.Some? ==> r.value < |elements| && Named(elements[r.value], name)
    ensures r.Some? ==> forall j | 0 <= j < r.value :: !Named(elements[j], name)
    ensures r.None? ==> forall j | 0 <= j < |elements| :: !Named(elements[j], name)
  {
    if |elements| == 0 then None
    else if Named(elements[0], name) then Some(0)
    else match FindNamed(elements[1..], name)
      case Some(k) =>
        assert forall j | 1 <= j < k + 1 :: elements[j] == elements[1..][j - 1];
        Some(k + 1)
      case None =>
        assert forall j | 1 <= j < |elements| :: elements[j] == elements[1..][j - 1];
        None
  }

  /** `parent.elements?.find(…)`: absent when the parent has no children. */
  function FindChild(parent: Element, name: string): (r: Option<nat>)
    ensures r.Some? ==> parent.elements.Some? && r.value < |parent.elements.value|
  {
    if parent.elements.None? then None else FindNamed(parent.elements.value, name)
  }

  /** The parent with its child at `i` replaced. */
  function WithChild(parent: Element, i: nat, child: Element): Element
    requires parent.elements.Some? && i < |parent.elements.value|
  {
    parent.(elements := Some(parent.elements.value[i := child]))
  }

  /** Replacing an element by one with the same tag name leaves every search where it was. */
  lemma {:induction false} FindNamedReplace(elements: seq<Element>, i: nat, el: Element, name: string)
    requires i < |elements| && el.name == elements[i].name
    ensures FindNamed(elements[i := el], name) == FindNamed(elements, name)
  {
    if i > 0 {
      FindNamedReplace(elements[1..], i - 1, el, name);
      assert elements[i := el][1..] == elements[1..][i - 1 := el];
    }
  }
}
