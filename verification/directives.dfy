/** Recognising Sprig directive attributes (`s-*`, `sprig-*`, `data-s-*`, `data-sprig-*`). */
module Directives {

  import opened OrderedMaps
  import opened Php

  /** The attributes of one HTML element, in document order. */
  type Attributes = OrderedMap<string>

  /** The directive prefixes, in the order they are tried. */
  const SprigPrefixes: seq<string> := ["s", "sprig", "data-s", "data-sprig"]

  /** The htmx attribute names a directive may carry over one to one. */
  const HtmxAttributes: seq<string> :=
    ["boost", "confirm", "delete", "disable", "encoding", "ext", "get", "headers", "history-elt",
     "include", "indicator", "params", "patch", "post", "preserve", "prompt", "push-url", "put",
     "request", "select", "sse", "swap", "swap-oob", "target", "trigger", "vals", "vars", "ws"]

  /** The key starts with one of the directive prefixes followed by `-`. */
  predicate IsDirectiveKey(key: string)
  {
    StartsWith(key, "s-") || StartsWith(key, "sprig-") || StartsWith(key, "data-s-")
      || StartsWith(key, "data-sprig-")
  }

  /** What follows the first of `prefixes` that, followed by `-`, begins `key`; `""` if none. */
  function NameAfterPrefix(prefixes: seq<string>, key: string): string
  {
    if prefixes == [] then ""
    else if StartsWith(key, prefixes[0] + "-") then key[|prefixes[0]| + 1..]
    else NameAfterPrefix(prefixes[1..], key)
  }

  /** `_getSprigAttributeName($key)` */
  function SprigAttributeName(key: string): string
  {
    NameAfterPrefix(SprigPrefixes, key)
  }

  /** The value of the first key `prefix-name`, over `prefixes` in order, that is present and
      not PHP-empty; `""` if none. */
  function ValueAfterPrefix(prefixes: seq<string>, attributes: Attributes, name: string): (r: string)
    ensures r != "0"
  {
    if prefixes == [] then ""
    else
      var key := prefixes[0] + "-" + name;
      if key in attributes.values && !IsEmpty(attributes.values[key]) then attributes.values[key]
      else ValueAfterPrefix(prefixes[1..], attributes, name)
  }

  /** `_getSprigAttributeValue($attributes, $name)` */
  function SprigAttributeValue(attributes: Attributes, name: string): string
  {
    ValueAfterPrefix(SprigPrefixes, attributes, name)
  }

  /** The name is what follows the first matching prefix. */
  lemma {:induction false} NameAfterFirstMatch(prefixes: seq<string>, key: string, i: nat)
    requires i < |prefixes| && StartsWith(key, prefixes[i] + "-")
    requires forall j :: 0 <= j < i ==> !StartsWith(key, prefixes[j] + "-")
    ensures NameAfterPrefix(prefixes, key) == key[|prefixes[i]| + 1..]
  {
    if i > 0 {
      assert !StartsWith(key, prefixes[0] + "-");
      NameAfterFirstMatch(prefixes[1..], key, i - 1);
    }
  }

  /** Without a matching prefix the name is empty. */
  lemma {:induction false} NameAfterNoMatch(prefixes: seq<string>, key: string)
    requires forall j :: 0 <= j < |prefixes| ==> !StartsWith(key, prefixes[j] + "-")
    ensures NameAfterPrefix(prefixes, key) == ""
  {
    if prefixes != [] {
      assert !StartsWith(key, prefixes[0] + "-");
      NameAfterNoMatch(prefixes[1..], key);
    }
  }

  /** Each authoring form of a directive names it by what follows its own prefix; `sprig-`
      is not taken for `s-`, nor `data-sprig-` for `data-s-`. */
  lemma SprigAttributeNameForms(name: string)
    ensures SprigAttributeName("s-" + name) == name
    ensures SprigAttributeName("sprig-" + name) == name
    ensures SprigAttributeName("data-s-" + name) == name
    ensures SprigAttributeName("data-sprig-" + name) == name
  {
    var ps := SprigPrefixes;
    assert ("s-" + name)[2..] == name;
    NameAfterFirstMatch(ps, "s-" + name, 0);
    assert ("sprig-" + name)[..6] == "sprig-" && ("sprig-" + name)[6..] == name;
    assert !StartsWith("sprig-" + name, "s-") by { assert ("sprig-" + name)[1] == 'p'; }
    NameAfterFirstMatch(ps, "sprig-" + name, 1);
    var d := "data-s-" + name;
    assert d[..7] == "data-s-" && d[7..] == name;
    assert !StartsWith(d, "s-") && !StartsWith(d, "sprig-") by { assert d[0] == 'd'; }
    NameAfterFirstMatch(ps, d, 2);
    var e := "data-sprig-" + name;
    assert e[..11] == "data-sprig-" && e[11..] == name;
    assert !StartsWith(e, "s-") && !StartsWith(e, "sprig-") by { assert e[0] == 'd'; }
    assert !StartsWith(e, "data-s-") by { assert e[6] == 'p'; }
    NameAfterFirstMatch(ps, e, 3);
  }

  /** A key that does not start with a directive prefix (`class`, `id`, `hx-get`) has an
      empty name. */
  lemma NonDirectiveHasNoName(key: string)
    requires !IsDirectiveKey(key)
    ensures SprigAttributeName(key) == ""
  {
    NameAfterNoMatch(SprigPrefixes, key);
  }

  /** Conversely, a key with a name is a directive. */
  lemma NamedKeyIsDirective(key: string)
    requires SprigAttributeName(key) != ""
    ensures IsDirectiveKey(key)
  {
    if !IsDirectiveKey(key) {
      NonDirectiveHasNoName(key);
    }
  }

  /** The attribute-name prefix the service writes htmx attributes with: none, or `data-`
      when the plugin's `hxDataPrefix` setting is on. */
  predicate ValidHxPrefix(hxPrefix: string)
  {
    hxPrefix == "" || hxPrefix == "data-"
  }

  /** No htmx attribute the service writes is a directive. */
  lemma HxKeyIsNotDirective(hxPrefix: string, key: string)
    requires ValidHxPrefix(hxPrefix) && StartsWith(key, hxPrefix + "hx-")
    ensures !IsDirectiveKey(key)
  {
    if hxPrefix == "" {
      assert key[0] == 'h';
    } else {
      assert key[0] == 'd' && key[5] == 'h';
    }
  }

  /** The value found for `name` depends only on the keys `prefix-name`. */
  lemma {:induction false} ValueAfterPrefixIgnores(prefixes: seq<string>, attributes: Attributes, name: string,
                                                   k: string, v: string)
    requires forall j :: 0 <= j < |prefixes| ==> prefixes[j] + "-" + name != k
    ensures ValueAfterPrefix(prefixes, Put(attributes, k, v), name) == ValueAfterPrefix(prefixes, attributes, name)
  {
    if prefixes != [] {
      assert prefixes[0] + "-" + name != k;
      ValueAfterPrefixIgnores(prefixes[1..], attributes, name, k, v);
    }
  }

  /** Writing an attribute that is not a directive does not change any directive's value. */
  lemma SprigAttributeValueIgnores(attributes: Attributes, name: string, k: string, v: string)
    requires !IsDirectiveKey(k)
    ensures SprigAttributeValue(Put(attributes, k, v), name) == SprigAttributeValue(attributes, name)
  {
    forall j | 0 <= j < |SprigPrefixes| ensures SprigPrefixes[j] + "-" + name != k {
      var p := SprigPrefixes[j] + "-";
      assert (p + name)[..|p|] == p;
    }
    ValueAfterPrefixIgnores(SprigPrefixes, attributes, name, k, v);
  }

  /** The value is that of the first present, non-empty `prefix-name`, over the prefixes in
      order. */
  lemma {:induction false} ValueAfterFirstMatch(prefixes: seq<string>, attributes: Attributes, name: string, i: nat)
    requires i < |prefixes|
    requires prefixes[i] + "-" + name in attributes.values
    requires !IsEmpty(attributes.values[prefixes[i] + "-" + name])
    requires forall j :: 0 <= j < i ==>
      prefixes[j] + "-" + name !in attributes.values || IsEmpty(attributes.values[prefixes[j] + "-" + name])
    ensures ValueAfterPrefix(prefixes, attributes, name) == attributes.values[prefixes[i] + "-" + name]
  {
    if i > 0 {
      ValueAfterFirstMatch(prefixes[1..], attributes, name, i - 1);
    }
  }

  /** With no present, non-empty `prefix-name` the value is `""`. */
  lemma {:induction false} ValueAfterNoMatch(prefixes: seq<string>, attributes: Attributes, name: string)
    requires forall j :: 0 <= j < |prefixes| ==>
      prefixes[j] + "-" + name !in attributes.values || IsEmpty(attributes.values[prefixes[j] + "-" + name])
    ensures ValueAfterPrefix(prefixes, attributes, name) == ""
  {
    if prefixes != [] {
      ValueAfterNoMatch(prefixes[1..], attributes, name);
    }
  }
}
