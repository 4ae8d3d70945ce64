/** How the component service rewrites the attributes of one element: Sprig directives
    (`s-*`, `sprig-*`, `data-s-*`, `data-sprig-*`) become htmx attributes (`hx-*`, or
    `data-hx-*` under the `hxDataPrefix` setting). These functions say what each step of
    ComponentsService computes; the class in module Service carries them out in place. */
module Rewriter {

  import opened Results
  import opened OrderedMaps
  import opened Php
  import opened JsonValues
  import opened Errors
  import opened Directives
  import opened Collaborators

  /** The controller action every component request is sent to. */
  const RenderAction := "sprig/components/render"

  /** The request header Craft reads the CSRF token from. */
  const CsrfHeader := "X-CSRF-Token"

  /** The deprecation logged for each `s-vars` directive. */
  const VarsDeprecation := Deprecation(
    "putyourlightson\\sprig\\services\\ComponentsService::_parseAttribute:vars",
    "The “s-vars” attribute in Sprig components has been deprecated for security reasons. "
    + "Use the new “s-vals” or “s-val:*” attribute instead.")

  /** The name of the htmx attribute `name` under the attribute prefix. */
  function HxKey(hxPrefix: string, name: string): (k: string)
    ensures StartsWith(k, hxPrefix + "hx-")
  {
    assert (hxPrefix + "hx-" + name)[..|hxPrefix + "hx-"|] == hxPrefix + "hx-";
    hxPrefix + "hx-" + name
  }

  /** Distinct htmx names give distinct attribute names. */
  lemma HxKeyInjective(hxPrefix: string, a: string, b: string)
    requires a != b
    ensures HxKey(hxPrefix, a) != HxKey(hxPrefix, b)
  {
    var n := |hxPrefix + "hx-"|;
    assert HxKey(hxPrefix, a)[n..] == a && HxKey(hxPrefix, b)[n..] == b;
  }

  /** `b` is `a` after writes to htmx attributes only: no attribute is removed, the existing
      ones keep their order, and every attribute whose name does not start with the htmx
      prefix is present in `b` exactly when it is in `a`, with the same value. */
  ghost predicate OnlyHxWrites(hxPrefix: string, a: Attributes, b: Attributes)
  {
    && |a.keys| <= |b.keys| && b.keys[..|a.keys|] == a.keys
    && (forall k :: k in a.values ==> k in b.values)
    && (forall k :: k in b.values && !StartsWith(k, hxPrefix + "hx-") ==>
          k in a.values && b.values[k] == a.values[k])
  }

  lemma OnlyHxWritesTransitive(hxPrefix: string, a: Attributes, b: Attributes, c: Attributes)
    requires OnlyHxWrites(hxPrefix, a, b) && OnlyHxWrites(hxPrefix, b, c)
    ensures OnlyHxWrites(hxPrefix, a, c)
  {
    assert c.keys[..|a.keys|] == c.keys[..|b.keys|][..|a.keys|];
  }

  /** Writing one htmx attribute is such a write. */
  lemma PutHxKey(hxPrefix: string, a: Attributes, name: string, v: string)
    ensures OnlyHxWrites(hxPrefix, a, Put(a, HxKey(hxPrefix, name), v))
  {
    var b := Put(a, HxKey(hxPrefix, name), v);
    if HxKey(hxPrefix, name) !in a.values {
      assert b.keys[..|a.keys|] == a.keys;
    }
  }

  /** The third argument of `_mergeJsonAttributes`: JSON text from a directive, or an array
      of pairs built by the service. */
  datatype JsonArg = JsonText(text: string) | JsonPairs(pairs: OrderedMap<Json>)

  /** The new values once `_mergeJsonAttributes` has checked and decoded a text argument:
      a `javascript:` prefix is refused before anything is decoded, and text that is not
      JSON is refused by the decoder. */
  function NewJson(codec: Codec, name: string, values: JsonArg): (r: Result<Json, Error>)
    ensures values.JsonText? && StartsWith(values.text, "javascript:") ==> r == Err(UnsafeJavascript(name))
    ensures r.Err? ==> values.JsonText?
  {
    match values
    case JsonText(text) =>
      if StartsWith(text, "javascript:") then Err(UnsafeJavascript(name))
      else if codec.decode(text).None? then Err(MalformedJson(text))
      else Ok(codec.decode(text).value)
    case JsonPairs(pairs) => Ok(JObject(pairs))
  }

  /** `array_merge` of the existing attribute's decoded value and the new values; only two
      objects can be merged. */
  function MergeInto(codec: Codec, name: string, existing: string, incoming: Json): (r: Result<Json, Error>)
    ensures r.Ok? <==> DecodesToObject(codec, existing) && incoming.JObject?
  {
    match codec.decode(existing)
    case None => Err(MalformedJson(existing))
    case Some(before) =>
      if before.JObject? && incoming.JObject? then Ok(JObject(Merge(before.fields, incoming.fields)))
      else Err(NotMergeable(name))
  }

  /** `_mergeJsonAttributes($attributes, $name, $values)`: the attribute `hx-name` becomes the
      encoded new values, merged over what it held when that was not PHP-empty. */
  function MergeJsonAttributes(hxPrefix: string, codec: Codec, attributes: Attributes, name: string,
                               values: JsonArg): (r: Result<Attributes, Error>)
    ensures values.JsonText? && StartsWith(values.text, "javascript:") ==> r == Err(UnsafeJavascript(name))
    ensures r.Ok? ==> HxKey(hxPrefix, name) in r.value.values
                      && r.value == Put(attributes, HxKey(hxPrefix, name), r.value.values[HxKey(hxPrefix, name)])
  {
    var incoming :- NewJson(codec, name, values);
    var key := HxKey(hxPrefix, name);
    var merged :-
      if key in attributes.values && !IsEmpty(attributes.values[key])
      then MergeInto(codec, name, attributes.values[key], incoming)
      else Ok(incoming);
    Ok(Put(attributes, key, codec.htmlEncode(merged)))
  }

  /** When `hx-name` is absent or PHP-empty, it becomes the new values, which decode back. */
  lemma MergeJsonIntoEmpty(hxPrefix: string, codec: Codec, attributes: Attributes, name: string, values: JsonArg)
    requires RoundTrips(codec)
    requires HxKey(hxPrefix, name) !in attributes.values || IsEmpty(attributes.values[HxKey(hxPrefix, name)])
    requires NewJson(codec, name, values).Ok?
    ensures MergeJsonAttributes(hxPrefix, codec, attributes, name, values).Ok?
    ensures codec.decode(MergeJsonAttributes(hxPrefix, codec, attributes, name, values).value.values[HxKey(hxPrefix, name)])
            == Some(NewJson(codec, name, values).value)
  {
  }

  /** Otherwise the existing object and the new one are merged: the keys of the old object
      keep their places and the new keys follow; new values win, old-only values stay. */
  lemma MergeJsonAccumulates(hxPrefix: string, codec: Codec, attributes: Attributes, name: string, values: JsonArg)
    requires RoundTrips(codec)
    requires HxKey(hxPrefix, name) in attributes.values && !IsEmpty(attributes.values[HxKey(hxPrefix, name)])
    requires DecodesToObject(codec, attributes.values[HxKey(hxPrefix, name)])
    requires NewJson(codec, name, values).Ok? && NewJson(codec, name, values).value.JObject?
    ensures MergeJsonAttributes(hxPrefix, codec, attributes, name, values).Ok?
    ensures var after := MergeJsonAttributes(hxPrefix, codec, attributes, name, values).value.values[HxKey(hxPrefix, name)];
            var before := DecodedObject(codec, attributes.values[HxKey(hxPrefix, name)]);
            var incoming := NewJson(codec, name, values).value.fields;
            && DecodesToObject(codec, after)
            && DecodedObject(codec, after).values == before.values + incoming.values
            && DecodedObject(codec, after).keys == before.keys + Fresh(incoming.keys, before.values.Keys)
  {
    var before := DecodedObject(codec, attributes.values[HxKey(hxPrefix, name)]);
    var incoming := NewJson(codec, name, values).value.fields;
    MergeValues(before, incoming);
    MergeKeys(before, incoming);
  }

  /** Merging no pairs into an object leaves the decoded attribute as it was. */
  lemma MergeJsonNothing(hxPrefix: string, codec: Codec, attributes: Attributes, name: string)
    requires RoundTrips(codec)
    requires HxKey(hxPrefix, name) in attributes.values && !IsEmpty(attributes.values[HxKey(hxPrefix, name)])
    requires DecodesToObject(codec, attributes.values[HxKey(hxPrefix, name)])
    ensures MergeJsonAttributes(hxPrefix, codec, attributes, name, JsonPairs(Empty())).Ok?
    ensures codec.decode(MergeJsonAttributes(hxPrefix, codec, attributes, name, JsonPairs(Empty())).value.values[HxKey(hxPrefix, name)])
            == codec.decode(attributes.values[HxKey(hxPrefix, name)])
  {
    MergeEmpty(DecodedObject(codec, attributes.values[HxKey(hxPrefix, name)]));
  }

  /** The merge fails exactly when the new text is refused, or when the attribute held a
      non-empty value that does not decode to an object or the new values are no object. */
  lemma MergeJsonFailures(hxPrefix: string, codec: Codec, attributes: Attributes, name: string, values: JsonArg)
    ensures var key := HxKey(hxPrefix, name);
            MergeJsonAttributes(hxPrefix, codec, attributes, name, values).Err? <==>
              || (values.JsonText? && StartsWith(values.text, "javascript:"))
              || (values.JsonText? && codec.decode(values.text).None?)
              || (key in attributes.values && !IsEmpty(attributes.values[key])
                  && !(DecodesToObject(codec, attributes.values[key]) && NewJson(codec, name, values).value.JObject?))
  {
  }

  /** The element carries the `sprig` (or `data-sprig`) marker attribute, whatever its value. */
  predicate HasSprigMarker(attributes: Attributes)
  {
    "sprig" in attributes.values || "data-sprig" in attributes.values
  }

  /** The method directive asks for a POST, in any letter case. */
  predicate IsPost(attributes: Attributes)
  {
    ToLower(SprigAttributeValue(attributes, "method")) == "post"
  }

  /** The query parameters of the request URL: the hashed action, when one is given. */
  function ActionParams(env: Env, attributes: Attributes): OrderedMap<string>
  {
    var action := SprigAttributeValue(attributes, "action");
    if !IsEmpty(action) then Single("sprig:action", env.hashData(action)) else Empty()
  }

  /** `_parseSprigAttribute($attributes)`: on a marked element, the request attribute
      `hx-post` (merging the CSRF header into `hx-headers` first) or `hx-get`, pointing at
      the render action. */
  function ParseSprigAttribute(hxPrefix: string, env: Env, attributes: Attributes): (r: Result<Attributes, Error>)
    ensures !HasSprigMarker(attributes) ==> r == Ok(attributes)
  {
    if !HasSprigMarker(attributes) then Ok(attributes)
    else
      var verb := if IsPost(attributes) then "post" else "get";
      var withHeaders :-
        if verb == "post"
        then MergeJsonAttributes(hxPrefix, env.json, attributes, "headers", CsrfPairs(env))
        else Ok(attributes);
      Ok(Put(withHeaders, HxKey(hxPrefix, verb), env.actionUrl(RenderAction, ActionParams(env, withHeaders))))
  }

  /** On a marked element that is not a POST, `hx-get` is set to the render action's URL,
      with the hashed action name when there is one, and nothing else changes. */
  lemma SprigMarkerGet(hxPrefix: string, env: Env, attributes: Attributes)
    requires HasSprigMarker(attributes) && !IsPost(attributes)
    ensures var action := SprigAttributeValue(attributes, "action");
            var params := if action == "" then Empty() else Single("sprig:action", env.hashData(action));
            ParseSprigAttribute(hxPrefix, env, attributes)
              == Ok(Put(attributes, HxKey(hxPrefix, "get"), env.actionUrl(RenderAction, params)))
  {
  }

  /** The CSRF header `_parseSprigAttribute` merges into `hx-headers` on a POST. */
  function CsrfPairs(env: Env): JsonArg
  {
    JsonPairs(Single(CsrfHeader, JString(env.csrfToken)))
  }

  /** On a marked POST element, the rewrite fails exactly when `hx-headers` holds a
      non-empty value that is not a JSON object. */
  lemma SprigMarkerPostFails(hxPrefix: string, env: Env, attributes: Attributes)
    requires HasSprigMarker(attributes) && IsPost(attributes)
    ensures var headers := HxKey(hxPrefix, "headers");
            ParseSprigAttribute(hxPrefix, env, attributes).Err? <==>
              headers in attributes.values && !IsEmpty(attributes.values[headers])
              && !DecodesToObject(env.json, attributes.values[headers])
  {
    MergeJsonFailures(hxPrefix, env.json, attributes, "headers", CsrfPairs(env));
  }

  /** On a marked POST element, `hx-post` is set to the render action's URL, with the
      action as it was before the headers were written. */
  lemma SprigMarkerPostUrl(hxPrefix: string, env: Env, attributes: Attributes)
    requires ValidHxPrefix(hxPrefix)
    requires HasSprigMarker(attributes) && IsPost(attributes)
    ensures var r := ParseSprigAttribute(hxPrefix, env, attributes);
            r.Ok? ==> HxKey(hxPrefix, "post") in r.value.values
                      && r.value.values[HxKey(hxPrefix, "post")] == env.actionUrl(RenderAction, ActionParams(env, attributes))
  {
    var headers := HxKey(hxPrefix, "headers");
    var merged := MergeJsonAttributes(hxPrefix, env.json, attributes, "headers", CsrfPairs(env));
    if merged.Ok? {
      HxKeyIsNotDirective(hxPrefix, headers);
      SprigAttributeValueIgnores(attributes, "action", headers, merged.value.values[headers]);
    }
  }

  /** On a marked POST element the whole rewrite: the CSRF header merged into `hx-headers`,
      then `hx-post` set to the render action's URL with the action as written; nothing
      else changes, and a failed header merge is the rewrite's failure. */
  lemma SprigMarkerPost(hxPrefix: string, env: Env, attributes: Attributes)
    requires ValidHxPrefix(hxPrefix)
    requires HasSprigMarker(attributes) && IsPost(attributes)
    ensures var merged := MergeJsonAttributes(hxPrefix, env.json, attributes, "headers", CsrfPairs(env));
            var headers := HxKey(hxPrefix, "headers");
            var r := ParseSprigAttribute(hxPrefix, env, attributes);
            && (r.Err? <==> merged.Err?)
            && (r.Err? ==> r.error == merged.error)
            && (r.Ok? ==> r.value == Put(Put(attributes, headers, merged.value.values[headers]), HxKey(hxPrefix, "post"),
                                         env.actionUrl(RenderAction, ActionParams(env, attributes))))
  {
    var headers := HxKey(hxPrefix, "headers");
    var merged := MergeJsonAttributes(hxPrefix, env.json, attributes, "headers", CsrfPairs(env));
    if merged.Ok? {
      HxKeyIsNotDirective(hxPrefix, headers);
      SprigAttributeValueIgnores(attributes, "action", headers, merged.value.values[headers]);
    }
  }

  /** On a marked POST element, `hx-headers` carries the CSRF token, over whatever headers
      it held. */
  lemma SprigMarkerPostCsrf(hxPrefix: string, env: Env, attributes: Attributes)
    requires RoundTrips(env.json)
    requires HasSprigMarker(attributes) && IsPost(attributes)
    ensures var r := ParseSprigAttribute(hxPrefix, env, attributes);
            var headers := HxKey(hxPrefix, "headers");
            r.Ok? ==> headers in r.value.values
                      && DecodesToObject(env.json, r.value.values[headers])
                      && CsrfHeader in DecodedObject(env.json, r.value.values[headers]).values
                      && DecodedObject(env.json, r.value.values[headers]).values[CsrfHeader] == JString(env.csrfToken)
  {
    var headers := HxKey(hxPrefix, "headers");
    var merged := MergeJsonAttributes(hxPrefix, env.json, attributes, "headers", CsrfPairs(env));
    var r := ParseSprigAttribute(hxPrefix, env, attributes);
    if merged.Ok? {
      assert r.Ok? && headers in r.value.values && r.value.values[headers] == merged.value.values[headers] by {
        HxKeyInjective(hxPrefix, "headers", "post");
        assert r == Ok(Put(merged.value, HxKey(hxPrefix, "post"), env.actionUrl(RenderAction, ActionParams(env, merged.value))));
      }
      CsrfMerged(hxPrefix, env, attributes);
    }
  }

  /** The merge of the CSRF header leaves `hx-headers` an object that carries the token. */
  lemma CsrfMerged(hxPrefix: string, env: Env, attributes: Attributes)
    requires RoundTrips(env.json)
    ensures var merged := MergeJsonAttributes(hxPrefix, env.json, attributes, "headers", CsrfPairs(env));
            var headers := HxKey(hxPrefix, "headers");
            merged.Ok? ==> headers in merged.value.values
                           && DecodesToObject(env.json, merged.value.values[headers])
                           && CsrfHeader in DecodedObject(env.json, merged.value.values[headers]).values
                           && DecodedObject(env.json, merged.value.values[headers]).values[CsrfHeader] == JString(env.csrfToken)
  {
    var headers := HxKey(hxPrefix, "headers");
    if headers in attributes.values && !IsEmpty(attributes.values[headers]) {
      if DecodesToObject(env.json, attributes.values[headers]) {
        MergeJsonAccumulates(hxPrefix, env.json, attributes, "headers", CsrfPairs(env));
      }
    } else {
      MergeJsonIntoEmpty(hxPrefix, env.json, attributes, "headers", CsrfPairs(env));
    }
  }

  /** `_parseSprigAttribute` writes htmx attributes only. */
  lemma ParseSprigAttributeOnlyHxWrites(hxPrefix: string, env: Env, attributes: Attributes)
    ensures var r := ParseSprigAttribute(hxPrefix, env, attributes);
            r.Ok? ==> OnlyHxWrites(hxPrefix, attributes, r.value)
  {
    var r := ParseSprigAttribute(hxPrefix, env, attributes);
    if !HasSprigMarker(attributes) {
      assert attributes.keys[..|attributes.keys|] == attributes.keys;
    } else if r.Ok? {
      var verb := if IsPost(attributes) then "post" else "get";
      var withHeaders := if verb == "post"
        then MergeJsonAttributes(hxPrefix, env.json, attributes, "headers", CsrfPairs(env)).value
        else attributes;
      if verb == "post" {
        PutHxKey(hxPrefix, attributes, "headers", withHeaders.values[HxKey(hxPrefix, "headers")]);
      } else {
        assert attributes.keys[..|attributes.keys|] == attributes.keys;
      }
      PutHxKey(hxPrefix, withHeaders, verb, env.actionUrl(RenderAction, ActionParams(env, withHeaders)));
      OnlyHxWritesTransitive(hxPrefix, attributes, withHeaders, r.value);
    }
  }

  /** No htmx name has a colon in fourth place. */
  lemma HtmxNamesHaveNoColon()
    ensures forall i :: 0 <= i < |HtmxAttributes| ==> |HtmxAttributes[i]| < 4 || HtmxAttributes[i][3] != ':'
  {
  }

  /** No htmx name is empty, starts with `val:` or is `replace`. */
  lemma HtmxNameIsPlain(name: string)
    requires name in HtmxAttributes
    ensures !IsEmpty(name) && !StartsWith(name, "val:") && name != "replace"
  {
    HtmxNamesHaveNoColon();
    var i :| 0 <= i < |HtmxAttributes| && HtmxAttributes[i] == name;
    assert |name| < 4 || name[..4] != "val:" by {
      if |name| >= 4 {
        assert name[..4][3] == name[3];
      }
    }
  }

  /** `_parseAttribute($attributes, $key, $value)`, apart from the deprecation it logs. */
  function ParseAttribute(hxPrefix: string, env: Env, attributes: Attributes, key: string, value: string)
    : (r: Result<Attributes, Error>)
  {
    var name := SprigAttributeName(key);
    if IsEmpty(name) then Ok(attributes)
    else if StartsWith(name, "val:") then
      MergeJsonAttributes(hxPrefix, env.json, attributes, "vals",
                          JsonPairs(Single(env.toCamelCase(name[4..]), JString(value))))
    else if name == "replace" then
      Ok(Put(Put(Put(attributes, HxKey(hxPrefix, "select"), value), HxKey(hxPrefix, "target"), value),
             HxKey(hxPrefix, "swap"), "outerHTML"))
    else if name in HtmxAttributes then
      if name == "headers" || name == "vals" then MergeJsonAttributes(hxPrefix, env.json, attributes, name, JsonText(value))
      else Ok(Put(attributes, HxKey(hxPrefix, name), value))
    else Ok(attributes)
  }

  /** The deprecations `_parseAttribute` logs for an attribute: one for an `s-vars` directive,
      logged after its value has been carried over. */
  function DeprecationsOf(key: string): (r: seq<Deprecation>)
    ensures |r| <= 1 && (r != [] <==> SprigAttributeName(key) == "vars")
  {
    if SprigAttributeName(key) == "vars" then [VarsDeprecation] else []
  }

  /** An attribute that is not a directive changes nothing and logs nothing. */
  lemma NonDirectiveIgnored(hxPrefix: string, env: Env, attributes: Attributes, key: string, value: string)
    requires !IsDirectiveKey(key)
    ensures ParseAttribute(hxPrefix, env, attributes, key, value) == Ok(attributes)
    ensures DeprecationsOf(key) == []
  {
    NonDirectiveHasNoName(key);
  }

  /** `s-val:name` adds the value, as a JSON string under the camel-cased name, to the object
      in `hx-vals`, keeping that object's other values: the new object is exactly the
      `array_merge` of the old one with that single pair. */
  lemma ValDirective(hxPrefix: string, env: Env, attributes: Attributes, key: string, value: string)
    requires RoundTrips(env.json)
    requires StartsWith(SprigAttributeName(key), "val:")
    ensures var r := ParseAttribute(hxPrefix, env, attributes, key, value);
            var field := env.toCamelCase(SprigAttributeName(key)[4..]);
            var vals := HxKey(hxPrefix, "vals");
            var existing := if vals in attributes.values then attributes.values[vals] else "";
            && (r.Err? <==> !IsEmpty(existing) && !DecodesToObject(env.json, existing))
            && (r.Ok? ==>
                  && r.value == Put(attributes, vals, r.value.values[vals])
                  && DecodesToObject(env.json, r.value.values[vals])
                  && field in DecodedObject(env.json, r.value.values[vals]).values
                  && DecodedObject(env.json, r.value.values[vals]).values[field] == JString(value)
                  && (!IsEmpty(existing) ==>
                        forall k :: k in DecodedObject(env.json, existing).values && k != field ==>
                          k in DecodedObject(env.json, r.value.values[vals]).values
                          && DecodedObject(env.json, r.value.values[vals]).values[k]
                             == DecodedObject(env.json, existing).values[k])
                  && DecodedObject(env.json, r.value.values[vals])
                     == if IsEmpty(existing) then Single(field, JString(value))
                        else Merge(DecodedObject(env.json, existing), Single(field, JString(value))))
  {
    var name := SprigAttributeName(key);
    var field := env.toCamelCase(name[4..]);
    var pairs := JsonPairs(Single(field, JString(value)));
    var vals := HxKey(hxPrefix, "vals");
    assert !IsEmpty(name);
    MergeJsonFailures(hxPrefix, env.json, attributes, "vals", pairs);
    var r := MergeJsonAttributes(hxPrefix, env.json, attributes, "vals", pairs);
    if r.Ok? {
      if vals in attributes.values && !IsEmpty(attributes.values[vals]) {
        MergeJsonAccumulates(hxPrefix, env.json, attributes, "vals", pairs);
        MergeKeys(DecodedObject(env.json, attributes.values[vals]), Single(field, JString(value)));
        MergeValues(DecodedObject(env.json, attributes.values[vals]), Single(field, JString(value)));
      } else {
        MergeJsonIntoEmpty(hxPrefix, env.json, attributes, "vals", pairs);
      }
    }
  }

  /** `s-replace` sets `hx-select` and `hx-target` to its value and `hx-swap` to
      `outerHTML`, and touches nothing else. */
  lemma ReplaceDirective(hxPrefix: string, env: Env, attributes: Attributes, key: string, value: string)
    requires SprigAttributeName(key) == "replace"
    ensures var r := ParseAttribute(hxPrefix, env, attributes, key, value);
            && r.Ok?
            && r.value.values == attributes.values[HxKey(hxPrefix, "select") := value]
                                                  [HxKey(hxPrefix, "target") := value]
                                                  [HxKey(hxPrefix, "swap") := "outerHTML"]
            && r.value.keys[..|attributes.keys|] == attributes.keys
  {
    var a1 := Put(attributes, HxKey(hxPrefix, "select"), value);
    var a2 := Put(a1, HxKey(hxPrefix, "target"), value);
    var a3 := Put(a2, HxKey(hxPrefix, "swap"), "outerHTML");
    ReplaceDispatch(hxPrefix, env, attributes, key, value);
    PutKeepsOrder(attributes, HxKey(hxPrefix, "select"), value);
    PutKeepsOrder(a1, HxKey(hxPrefix, "target"), value);
    PutKeepsOrder(a2, HxKey(hxPrefix, "swap"), "outerHTML");
    PrefixTransitive(attributes.keys, a1.keys, a2.keys);
    PrefixTransitive(attributes.keys, a2.keys, a3.keys);
  }

  /** `s-replace` takes the `replace` branch. */
  lemma ReplaceDispatch(hxPrefix: string, env: Env, attributes: Attributes, key: string, value: string)
    requires SprigAttributeName(key) == "replace"
    ensures ParseAttribute(hxPrefix, env, attributes, key, value)
            == Ok(Put(Put(Put(attributes, HxKey(hxPrefix, "select"), value), HxKey(hxPrefix, "target"), value),
                      HxKey(hxPrefix, "swap"), "outerHTML"))
  {
    assert !StartsWith("replace", "val:") by { assert "replace"[0] != 'v'; }
  }

  /** `s-headers` and `s-vals` are merged as JSON text into `hx-headers` and `hx-vals`; a
      `javascript:` value is refused. */
  lemma JsonDirective(hxPrefix: string, env: Env, attributes: Attributes, key: string, value: string)
    requires SprigAttributeName(key) == "headers" || SprigAttributeName(key) == "vals"
    ensures var name := SprigAttributeName(key);
            var r := ParseAttribute(hxPrefix, env, attributes, key, value);
            && (StartsWith(value, "javascript:") ==> r == Err(UnsafeJavascript(name)))
            && r == MergeJsonAttributes(hxPrefix, env.json, attributes, name, JsonText(value))
  {
    assert !StartsWith("headers", "val:") by { assert "headers"[0] != 'v'; }
    assert !StartsWith("vals", "val:") by { assert "vals"[3] != ':'; }
    assert "headers" in HtmxAttributes && "vals" in HtmxAttributes;
  }

  /** Every other htmx name is carried over as it is, `javascript:` values included; `s-vars`
      also logs its deprecation. */
  lemma PlainDirective(hxPrefix: string, env: Env, attributes: Attributes, key: string, value: string)
    requires SprigAttributeName(key) in HtmxAttributes
    requires SprigAttributeName(key) != "headers" && SprigAttributeName(key) != "vals"
    ensures ParseAttribute(hxPrefix, env, attributes, key, value)
            == Ok(Put(attributes, HxKey(hxPrefix, SprigAttributeName(key)), value))
  {
    HtmxNameIsPlain(SprigAttributeName(key));
  }

  /** Any other directive name (`s-method`, `s-action`, an unknown one) changes nothing. */
  lemma OtherDirectiveIgnored(hxPrefix: string, env: Env, attributes: Attributes, key: string, value: string)
    requires !StartsWith(SprigAttributeName(key), "val:") && SprigAttributeName(key) != "replace"
    requires SprigAttributeName(key) !in HtmxAttributes
    ensures ParseAttribute(hxPrefix, env, attributes, key, value) == Ok(attributes)
    ensures DeprecationsOf(key) == []
  {
  }

  /** `_parseAttribute` writes htmx attributes only, and it can fail only on a JSON
      directive. */
  lemma ParseAttributeOnlyHxWrites(hxPrefix: string, env: Env, attributes: Attributes, key: string, value: string)
    ensures var r := ParseAttribute(hxPrefix, env, attributes, key, value);
            var name := SprigAttributeName(key);
            && (r.Ok? ==> OnlyHxWrites(hxPrefix, attributes, r.value))
            && (r.Err? ==> StartsWith(name, "val:") || name == "headers" || name == "vals")
  {
    var name := SprigAttributeName(key);
    var r := ParseAttribute(hxPrefix, env, attributes, key, value);
    if r.Ok? {
      if IsEmpty(name) || r.value == attributes {
        assert attributes.keys[..|attributes.keys|] == attributes.keys;
      } else if StartsWith(name, "val:") {
        PutHxKey(hxPrefix, attributes, "vals", r.value.values[HxKey(hxPrefix, "vals")]);
      } else if name == "replace" {
        var a1 := Put(attributes, HxKey(hxPrefix, "select"), value);
        var a2 := Put(a1, HxKey(hxPrefix, "target"), value);
        PutHxKey(hxPrefix, attributes, "select", value);
        PutHxKey(hxPrefix, a1, "target", value);
        PutHxKey(hxPrefix, a2, "swap", "outerHTML");
        OnlyHxWritesTransitive(hxPrefix, attributes, a1, a2);
        OnlyHxWritesTransitive(hxPrefix, attributes, a2, r.value);
      } else if name == "headers" || name == "vals" {
        PutHxKey(hxPrefix, attributes, name, r.value.values[HxKey(hxPrefix, name)]);
      } else {
        PutHxKey(hxPrefix, attributes, name, value);
      }
    }
  }

  /** What the loop of `_parseAttributes` does with one attribute. The loop is stated over
      this parameter, so that its properties rest only on what is proved about the step. */
  type AttributeParser = (Attributes, string, string) -> Result<Attributes, Error>

  /** `_parseAttribute` as the loop of `_parseAttributes` calls it. */
  function AttributeParse(hxPrefix: string, env: Env): AttributeParser
  {
    (attributes, key, value) => ParseAttribute(hxPrefix, env, attributes, key, value)
  }

  /** The `foreach` of `_parseAttributes`, from the `i`-th attribute of `snapshot` (the array
      as it was when the loop began) on: each attribute is parsed into the array as it is
      now, and the deprecations are collected after those already `logged`. */
  function ParseEach(parse: AttributeParser, current: Attributes, snapshot: Attributes, i: nat,
                     logged: seq<Deprecation>): Logged<Attributes>
    requires i <= |snapshot.keys|
    decreases |snapshot.keys| - i
  {
    if i == |snapshot.keys| then Logged(Ok(current), logged)
    else
      var key := snapshot.keys[i];
      match parse(current, key, snapshot.values[key])
      case Err(e) => Logged(Err(e), logged)
      case Ok(next) => ParseEach(parse, next, snapshot, i + 1, logged + DeprecationsOf(key))
  }

  /** One turn of the loop, given what the step returned. */
  lemma ParseEachStep(parse: AttributeParser, current: Attributes, snapshot: Attributes, i: nat,
                      logged: seq<Deprecation>, parsed: Result<Attributes, Error>)
    requires i < |snapshot.keys|
    requires parse(current, snapshot.keys[i], snapshot.values[snapshot.keys[i]]) == parsed
    ensures parsed.Err? ==> ParseEach(parse, current, snapshot, i, logged) == Logged(Err(parsed.error), logged)
    ensures parsed.Ok? ==> ParseEach(parse, current, snapshot, i, logged)
                           == ParseEach(parse, parsed.value, snapshot, i + 1, logged + DeprecationsOf(snapshot.keys[i]))
  {
  }

  /** `_parseAttributes($attributes)`: the marker first, then every attribute in order. */
  function ParseAttributes(hxPrefix: string, env: Env, attributes: Attributes): Logged<Attributes>
  {
    match ParseSprigAttribute(hxPrefix, env, attributes)
    case Err(e) => Logged(Err(e), [])
    case Ok(marked) => ParseEach(AttributeParse(hxPrefix, env), marked, marked, 0, [])
  }

  /** The deprecations logged for a run of attribute names: one per `vars` directive. */
  function VarsNotices(keys: seq<string>): (r: seq<Deprecation>)
    ensures forall d :: d in r ==> d == VarsDeprecation
  {
    if keys == [] then [] else DeprecationsOf(keys[0]) + VarsNotices(keys[1..])
  }

  lemma {:induction false} VarsNoticesAppend(a: seq<string>, b: seq<string>)
    ensures VarsNotices(a + b) == VarsNotices(a) + VarsNotices(b)
  {
    if a == [] {
      assert a + b == b;
    } else {
      var k := a[0];
      assert (a + b)[0] == k && (a + b)[1..] == a[1..] + b;
      VarsNoticesAppend(a[1..], b);
      assert VarsNotices(a + b) == DeprecationsOf(k) + VarsNotices(a[1..] + b);
      assert VarsNotices(a) == DeprecationsOf(k) + VarsNotices(a[1..]);
    }
  }

  /** A step that writes htmx attributes only. */
  ghost predicate WritesHxOnly(hxPrefix: string, parse: AttributeParser)
  {
    forall a, k, v :: parse(a, k, v).Ok? ==> OnlyHxWrites(hxPrefix, a, parse(a, k, v).value)
  }

  /** A step that leaves the attributes as they are for an attribute that is no directive. */
  ghost predicate IgnoresNonDirectives(parse: AttributeParser)
  {
    forall a, k, v :: !IsDirectiveKey(k) ==> parse(a, k, v) == Ok(a)
  }

  /** The attributes hold every value `writes` gives. */
  predicate Holds(attributes: Attributes, writes: map<string, string>)
  {
    forall h :: h in writes ==> h in attributes.values && attributes.values[h] == writes[h]
  }

  /** A step that, whenever it succeeds on `key` with `value`, leaves the attributes `writes`
      names with the values it gives them. */
  ghost predicate Sets(parse: AttributeParser, key: string, value: string, writes: map<string, string>)
  {
    forall a :: parse(a, key, value).Ok? ==> Holds(parse(a, key, value).value, writes)
  }

  /** A step that, whenever it succeeds on `key` with `value`, keeps the values `writes`
      gives wherever they already hold. */
  ghost predicate Keeps(parse: AttributeParser, key: string, value: string, writes: map<string, string>)
  {
    forall a :: parse(a, key, value).Ok? && Holds(a, writes) ==> Holds(parse(a, key, value).value, writes)
  }

  lemma AttributeParseWritesHxOnly(hxPrefix: string, env: Env)
    ensures WritesHxOnly(hxPrefix, AttributeParse(hxPrefix, env))
  {
    var parse := AttributeParse(hxPrefix, env);
    forall a, k, v | parse(a, k, v).Ok? ensures OnlyHxWrites(hxPrefix, a, parse(a, k, v).value) {
      ParseAttributeOnlyHxWrites(hxPrefix, env, a, k, v);
    }
  }

  lemma AttributeParseIgnoresNonDirectives(hxPrefix: string, env: Env)
    ensures IgnoresNonDirectives(AttributeParse(hxPrefix, env))
  {
    var parse := AttributeParse(hxPrefix, env);
    forall a, k, v | !IsDirectiveKey(k) ensures parse(a, k, v) == Ok(a) {
      NonDirectiveIgnored(hxPrefix, env, a, k, v);
    }
  }

  /** The loop writes htmx attributes only. */
  lemma {:induction false} ParseEachOnlyHxWrites(hxPrefix: string, parse: AttributeParser, current: Attributes,
                                                 snapshot: Attributes, i: nat, logged: seq<Deprecation>)
    requires WritesHxOnly(hxPrefix, parse)
    requires i <= |snapshot.keys|
    ensures var r := ParseEach(parse, current, snapshot, i, logged);
            r.outcome.Ok? ==> OnlyHxWrites(hxPrefix, current, r.outcome.value)
    decreases |snapshot.keys| - i
  {
    var r := ParseEach(parse, current, snapshot, i, logged);
    if i == |snapshot.keys| {
      assert current.keys[..|current.keys|] == current.keys;
    } else if r.outcome.Ok? {
      var key := snapshot.keys[i];
      var step := parse(current, key, snapshot.values[key]);
      assert step.Ok? && r == ParseEach(parse, step.value, snapshot, i + 1, logged + DeprecationsOf(key));
      ParseEachOnlyHxWrites(hxPrefix, parse, step.value, snapshot, i + 1, logged + DeprecationsOf(key));
      OnlyHxWritesTransitive(hxPrefix, current, step.value, r.outcome.value);
    }
  }

  /** On success the loop has logged one notice per `vars` directive it went through. */
  lemma {:induction false} ParseEachLogs(parse: AttributeParser, current: Attributes, snapshot: Attributes,
                                         i: nat, logged: seq<Deprecation>)
    requires i <= |snapshot.keys|
    ensures var r := ParseEach(parse, current, snapshot, i, logged);
            r.outcome.Ok? ==> r.logged == logged + VarsNotices(snapshot.keys[i..])
    decreases |snapshot.keys| - i
  {
    if i < |snapshot.keys| {
      var key := snapshot.keys[i];
      var step := parse(current, key, snapshot.values[key]);
      if step.Ok? {
        var rest := logged + DeprecationsOf(key);
        ParseEachLogs(parse, step.value, snapshot, i + 1, rest);
        assert snapshot.keys[i..][0] == key && snapshot.keys[i..][1..] == snapshot.keys[i + 1..];
        assert VarsNotices(snapshot.keys[i..]) == DeprecationsOf(key) + VarsNotices(snapshot.keys[i + 1..]);
        AppendAssociative(logged, DeprecationsOf(key), VarsNotices(snapshot.keys[i + 1..]));
      }
    }
  }

  /** `_parseAttributes` writes htmx attributes only: every other attribute, every directive
      among them, keeps its value, and no attribute is removed or moved. */
  lemma ParseAttributesOnlyHxWrites(hxPrefix: string, env: Env, attributes: Attributes)
    requires ValidHxPrefix(hxPrefix)
    ensures var r := ParseAttributes(hxPrefix, env, attributes).outcome;
            r.Ok? ==> && OnlyHxWrites(hxPrefix, attributes, r.value)
                      && forall k :: k in attributes.values && IsDirectiveKey(k) ==>
                           k in r.value.values && r.value.values[k] == attributes.values[k]
  {
    var marked := ParseSprigAttribute(hxPrefix, env, attributes);
    var r := ParseAttributes(hxPrefix, env, attributes).outcome;
    if r.Ok? {
      var parse := AttributeParse(hxPrefix, env);
      assert marked.Ok? && r == ParseEach(parse, marked.value, marked.value, 0, []).outcome;
      ParseSprigAttributeOnlyHxWrites(hxPrefix, env, attributes);
      AttributeParseWritesHxOnly(hxPrefix, env);
      ParseEachOnlyHxWrites(hxPrefix, parse, marked.value, marked.value, 0, []);
      OnlyHxWritesTransitive(hxPrefix, attributes, marked.value, r.value);
      forall k | k in attributes.values && IsDirectiveKey(k)
        ensures k in r.value.values && r.value.values[k] == attributes.values[k]
      {
        if StartsWith(k, hxPrefix + "hx-") {
          HxKeyIsNotDirective(hxPrefix, k);
        }
      }
    }
  }

  /** What the marker adds logs nothing. */
  lemma MarkerLogsNothing(hxPrefix: string, env: Env, attributes: Attributes)
    requires ValidHxPrefix(hxPrefix)
    ensures var marked := ParseSprigAttribute(hxPrefix, env, attributes);
            marked.Ok? ==> VarsNotices(marked.value.keys) == VarsNotices(attributes.keys)
  {
    var marked := ParseSprigAttribute(hxPrefix, env, attributes);
    if marked.Ok? {
      ParseSprigAttributeOnlyHxWrites(hxPrefix, env, attributes);
      HxWritesLogNothing(hxPrefix, attributes, marked.value);
    }
  }

  /** Writes to htmx attributes add no directive, so no deprecation. */
  lemma HxWritesLogNothing(hxPrefix: string, a: Attributes, b: Attributes)
    requires ValidHxPrefix(hxPrefix) && OnlyHxWrites(hxPrefix, a, b)
    ensures VarsNotices(b.keys) == VarsNotices(a.keys)
  {
    var added := b.keys[|a.keys|..];
    assert b.keys == a.keys + added;
    VarsNoticesAppend(a.keys, added);
    AddedKeysLogNothing(hxPrefix, a, b, |a.keys|);
  }

  /** On success `_parseAttributes` has logged one deprecation per `vars` directive of the
      element, in order, and nothing else: the attributes the marker adds are no directives. */
  lemma ParseAttributesLogs(hxPrefix: string, env: Env, attributes: Attributes)
    requires ValidHxPrefix(hxPrefix)
    ensures var r := ParseAttributes(hxPrefix, env, attributes);
            r.outcome.Ok? ==> r.logged == VarsNotices(attributes.keys)
  {
    var marked := ParseSprigAttribute(hxPrefix, env, attributes);
    var r := ParseAttributes(hxPrefix, env, attributes);
    if r.outcome.Ok? {
      var parse := AttributeParse(hxPrefix, env);
      assert marked.Ok? && r == ParseEach(parse, marked.value, marked.value, 0, []);
      var m := marked.value;
      MarkerLogsNothing(hxPrefix, env, attributes);
      ParseEachLogs(parse, m, m, 0, []);
      assert m.keys[0..] == m.keys;
    }
  }

  /** A key that a write to htmx attributes adds is an htmx attribute. */
  lemma AddedKeyIsHx(hxPrefix: string, a: Attributes, b: Attributes, i: nat)
    requires OnlyHxWrites(hxPrefix, a, b)
    requires |a.keys| <= i < |b.keys|
    ensures StartsWith(b.keys[i], hxPrefix + "hx-")
  {
    assert b.keys[i] !in b.keys[..|a.keys|];
  }

  /** The keys a write to htmx attributes adds are htmx attributes, which log nothing. */
  lemma {:induction false} AddedKeysLogNothing(hxPrefix: string, a: Attributes, b: Attributes, i: nat)
    requires ValidHxPrefix(hxPrefix) && OnlyHxWrites(hxPrefix, a, b)
    requires |a.keys| <= i <= |b.keys|
    ensures VarsNotices(b.keys[i..]) == []
    decreases |b.keys| - i
  {
    if i < |b.keys| {
      var k := b.keys[i];
      assert b.keys[i..][0] == k && b.keys[i..][1..] == b.keys[i + 1..];
      AddedKeyIsHx(hxPrefix, a, b, i);
      HxKeyIsNotDirective(hxPrefix, k);
      NonDirectiveHasNoName(k);
      AddedKeysLogNothing(hxPrefix, a, b, i + 1);
      assert VarsNotices(b.keys[i..]) == DeprecationsOf(k) + VarsNotices(b.keys[i + 1..]);
    }
  }

  /** Attributes that are not directives leave the rest of the pass without effect. */
  lemma {:induction false} NonDirectivesChangeNothing(parse: AttributeParser, current: Attributes,
                                                      snapshot: Attributes, i: nat, logged: seq<Deprecation>)
    requires IgnoresNonDirectives(parse)
    requires i <= |snapshot.keys|
    requires forall m :: i <= m < |snapshot.keys| ==> !IsDirectiveKey(snapshot.keys[m])
    ensures ParseEach(parse, current, snapshot, i, logged).outcome == Ok(current)
    decreases |snapshot.keys| - i
  {
    if i < |snapshot.keys| {
      var key := snapshot.keys[i];
      assert parse(current, key, snapshot.values[key]) == Ok(current);
      NonDirectivesChangeNothing(parse, current, snapshot, i + 1, logged + DeprecationsOf(key));
    }
  }

  /** Values that hold stay for the rest of the pass when every remaining step keeps them. */
  lemma {:induction false} KeptToEnd(parse: AttributeParser, current: Attributes, snapshot: Attributes, i: nat,
                                     logged: seq<Deprecation>, writes: map<string, string>)
    requires i <= |snapshot.keys| && Holds(current, writes)
    requires forall m :: i <= m < |snapshot.keys| ==> Keeps(parse, snapshot.keys[m], snapshot.values[snapshot.keys[m]], writes)
    ensures var r := ParseEach(parse, current, snapshot, i, logged).outcome;
            r.Ok? ==> Holds(r.value, writes)
    decreases |snapshot.keys| - i
  {
    if i < |snapshot.keys| {
      var key := snapshot.keys[i];
      var step := parse(current, key, snapshot.values[key]);
      if step.Ok? {
        KeptToEnd(parse, step.value, snapshot, i + 1, logged + DeprecationsOf(key), writes);
      }
    }
  }

  /** Attributes apply in order, so the last one that writes an htmx attribute decides its
      value: what the `j`-th attribute writes survives the pass when every later attribute
      keeps it. */
  lemma {:induction false} LastDirectiveWins(parse: AttributeParser, current: Attributes, snapshot: Attributes,
                                             i: nat, j: nat, logged: seq<Deprecation>, writes: map<string, string>)
    requires i <= j < |snapshot.keys|
    requires Sets(parse, snapshot.keys[j], snapshot.values[snapshot.keys[j]], writes)
    requires forall m :: j < m < |snapshot.keys| ==> Keeps(parse, snapshot.keys[m], snapshot.values[snapshot.keys[m]], writes)
    ensures var r := ParseEach(parse, current, snapshot, i, logged).outcome;
            r.Ok? ==> Holds(r.value, writes)
    decreases j - i
  {
    var key := snapshot.keys[i];
    var step := parse(current, key, snapshot.values[key]);
    if step.Ok? {
      if i < j {
        LastDirectiveWins(parse, step.value, snapshot, i + 1, j, logged + DeprecationsOf(key), writes);
      } else {
        KeptToEnd(parse, step.value, snapshot, i + 1, logged + DeprecationsOf(key), writes);
      }
    }
  }

  /** The marker keeps every attribute in its place, adds only attributes that are no
      directives, and leaves the directives' values as they were. */
  lemma MarkerAddsNoDirective(hxPrefix: string, env: Env, attributes: Attributes)
    requires ValidHxPrefix(hxPrefix)
    requires ParseSprigAttribute(hxPrefix, env, attributes).Ok?
    ensures var marked := ParseSprigAttribute(hxPrefix, env, attributes).value;
            && |attributes.keys| <= |marked.keys| && marked.keys[..|attributes.keys|] == attributes.keys
            && (forall m :: |attributes.keys| <= m < |marked.keys| ==> !IsDirectiveKey(marked.keys[m]))
            && (forall k :: k in attributes.values && IsDirectiveKey(k) ==>
                  k in marked.values && marked.values[k] == attributes.values[k])
  {
    var marked := ParseSprigAttribute(hxPrefix, env, attributes).value;
    ParseSprigAttributeOnlyHxWrites(hxPrefix, env, attributes);
    forall m | |attributes.keys| <= m < |marked.keys| ensures !IsDirectiveKey(marked.keys[m]) {
      AddedKeyIsHx(hxPrefix, attributes, marked, m);
      HxKeyIsNotDirective(hxPrefix, marked.keys[m]);
    }
    forall k | k in attributes.values && IsDirectiveKey(k)
      ensures k in marked.values && marked.values[k] == attributes.values[k]
    {
      if StartsWith(k, hxPrefix + "hx-") {
        HxKeyIsNotDirective(hxPrefix, k);
      }
    }
  }

  /** The directive `name` may write the htmx attribute `target`: its own, the three of
      `replace`, or `hx-vals` for `val:`. */
  predicate MayWrite(name: string, target: string)
  {
    || name == target
    || (name == "replace" && (target == "select" || target == "target" || target == "swap"))
    || (StartsWith(name, "val:") && target == "vals")
  }

  /** Assigning one attribute leaves every other as it was. */
  lemma PutLeaves(attributes: Attributes, k: string, v: string, h: string)
    requires h != k && h in attributes.values
    ensures h in Put(attributes, k, v).values && Put(attributes, k, v).values[h] == attributes.values[h]
  {
  }

  /** An attribute whose directive may not write the htmx attribute `target` names leaves its value alone. */
  lemma ParseAttributeLeaves(hxPrefix: string, env: Env, attributes: Attributes, key: string, value: string,
                             target: string)
    requires !MayWrite(SprigAttributeName(key), target)
    ensures var r := ParseAttribute(hxPrefix, env, attributes, key, value);
            var h := HxKey(hxPrefix, target);
            r.Ok? && h in attributes.values ==> h in r.value.values && r.value.values[h] == attributes.values[h]
  {
    var name := SprigAttributeName(key);
    var h := HxKey(hxPrefix, target);
    var r := ParseAttribute(hxPrefix, env, attributes, key, value);
    if r.Ok? && h in attributes.values {
      if IsEmpty(name) {
        assert r == Ok(attributes);
      } else if StartsWith(name, "val:") {
        var pairs := JsonPairs(Single(env.toCamelCase(name[4..]), JString(value)));
        assert r == MergeJsonAttributes(hxPrefix, env.json, attributes, "vals", pairs);
        HxKeyInjective(hxPrefix, target, "vals");
        PutLeaves(attributes, HxKey(hxPrefix, "vals"), r.value.values[HxKey(hxPrefix, "vals")], h);
      } else if name == "replace" {
        ReplaceLeaves(hxPrefix, env, attributes, key, value, target);
      } else if name in HtmxAttributes {
        HxKeyInjective(hxPrefix, target, name);
        if name == "headers" || name == "vals" {
          JsonDirective(hxPrefix, env, attributes, key, value);
          PutLeaves(attributes, HxKey(hxPrefix, name), r.value.values[HxKey(hxPrefix, name)], h);
        } else {
          PlainDirective(hxPrefix, env, attributes, key, value);
          PutLeaves(attributes, HxKey(hxPrefix, name), value, h);
        }
      } else {
        OtherDirectiveIgnored(hxPrefix, env, attributes, key, value);
      }
    }
  }

  /** `s-replace` leaves every htmx attribute but its three alone. */
  lemma ReplaceLeaves(hxPrefix: string, env: Env, attributes: Attributes, key: string, value: string, target: string)
    requires SprigAttributeName(key) == "replace"
    requires target != "select" && target != "target" && target != "swap"
    requires HxKey(hxPrefix, target) in attributes.values
    ensures var r := ParseAttribute(hxPrefix, env, attributes, key, value);
            var h := HxKey(hxPrefix, target);
            r.Ok? && h in r.value.values && r.value.values[h] == attributes.values[h]
  {
    var h := HxKey(hxPrefix, target);
    ReplaceDispatch(hxPrefix, env, attributes, key, value);
    HxKeyInjective(hxPrefix, target, "select");
    HxKeyInjective(hxPrefix, target, "target");
    HxKeyInjective(hxPrefix, target, "swap");
    var a1 := Put(attributes, HxKey(hxPrefix, "select"), value);
    var a2 := Put(a1, HxKey(hxPrefix, "target"), value);
    PutLeaves(attributes, HxKey(hxPrefix, "select"), value, h);
    PutLeaves(a1, HxKey(hxPrefix, "target"), value, h);
    PutLeaves(a2, HxKey(hxPrefix, "swap"), "outerHTML", h);
  }

  /** An attribute whose directive may not write the htmx attribute `target` names keeps whatever value it holds. */
  lemma PlainKeeps(hxPrefix: string, env: Env, key: string, v: string, target: string, w: string)
    requires !MayWrite(SprigAttributeName(key), target)
    ensures Keeps(AttributeParse(hxPrefix, env), key, v, map[HxKey(hxPrefix, target) := w])
  {
    var parse := AttributeParse(hxPrefix, env);
    var writes := map[HxKey(hxPrefix, target) := w];
    forall a | parse(a, key, v).Ok? && Holds(a, writes) ensures Holds(parse(a, key, v).value, writes) {
      assert HxKey(hxPrefix, target) in writes;
      ParseAttributeLeaves(hxPrefix, env, a, key, v, target);
    }
  }

  /** A directive carried over one to one sets its htmx attribute to its value. */
  lemma PlainDirectiveSets(hxPrefix: string, env: Env, key: string, v: string)
    requires SprigAttributeName(key) in HtmxAttributes
    requires SprigAttributeName(key) != "headers" && SprigAttributeName(key) != "vals"
    ensures Sets(AttributeParse(hxPrefix, env), key, v, map[HxKey(hxPrefix, SprigAttributeName(key)) := v])
  {
    var parse := AttributeParse(hxPrefix, env);
    var hx := HxKey(hxPrefix, SprigAttributeName(key));
    forall a | parse(a, key, v).Ok? ensures Holds(parse(a, key, v).value, map[hx := v]) {
      PlainDirective(hxPrefix, env, a, key, v);
    }
  }

  /** What `s-replace` writes. */
  function ReplaceWrites(hxPrefix: string, v: string): map<string, string>
  {
    map[HxKey(hxPrefix, "select") := v, HxKey(hxPrefix, "target") := v, HxKey(hxPrefix, "swap") := "outerHTML"]
  }

  lemma ReplaceDirectiveSets(hxPrefix: string, env: Env, key: string, v: string)
    requires SprigAttributeName(key) == "replace"
    ensures Sets(AttributeParse(hxPrefix, env), key, v, ReplaceWrites(hxPrefix, v))
  {
    var parse := AttributeParse(hxPrefix, env);
    var writes := ReplaceWrites(hxPrefix, v);
    HxKeyInjective(hxPrefix, "select", "target");
    HxKeyInjective(hxPrefix, "select", "swap");
    HxKeyInjective(hxPrefix, "target", "swap");
    forall a | parse(a, key, v).Ok? ensures Holds(parse(a, key, v).value, writes) {
      ReplaceDirective(hxPrefix, env, a, key, v);
    }
  }

  /** A step keeps a set of values when it keeps each of them. */
  lemma KeepsEach(parse: AttributeParser, key: string, v: string, writes: map<string, string>)
    requires forall h :: h in writes ==> Keeps(parse, key, v, map[h := writes[h]])
    ensures Keeps(parse, key, v, writes)
  {
    forall a | parse(a, key, v).Ok? && Holds(a, writes) ensures Holds(parse(a, key, v).value, writes) {
      forall h | h in writes
        ensures h in parse(a, key, v).value.values && parse(a, key, v).value.values[h] == writes[h]
      {
        assert Holds(a, map[h := writes[h]]);
        assert h in map[h := writes[h]];
      }
    }
  }

  /** An attribute whose directive writes none of `hx-select`, `hx-target` and `hx-swap`
      keeps what `s-replace` wrote there. */
  lemma ReplaceKeeps(hxPrefix: string, env: Env, key: string, v: string, w: string)
    requires !MayWrite(SprigAttributeName(key), "select")
    requires !MayWrite(SprigAttributeName(key), "target")
    requires !MayWrite(SprigAttributeName(key), "swap")
    ensures Keeps(AttributeParse(hxPrefix, env), key, v, ReplaceWrites(hxPrefix, w))
  {
    var writes := ReplaceWrites(hxPrefix, w);
    PlainKeeps(hxPrefix, env, key, v, "select", w);
    PlainKeeps(hxPrefix, env, key, v, "target", w);
    PlainKeeps(hxPrefix, env, key, v, "swap", "outerHTML");
    forall h | h in writes ensures Keeps(AttributeParse(hxPrefix, env), key, v, map[h := writes[h]]) {
      if h == HxKey(hxPrefix, "swap") {
        HxKeyInjective(hxPrefix, "select", "swap");
        HxKeyInjective(hxPrefix, "target", "swap");
        assert map[h := writes[h]] == map[HxKey(hxPrefix, "swap") := "outerHTML"];
      } else if h == HxKey(hxPrefix, "target") {
        HxKeyInjective(hxPrefix, "select", "target");
        assert map[h := writes[h]] == map[HxKey(hxPrefix, "target") := w];
      } else {
        assert map[h := writes[h]] == map[HxKey(hxPrefix, "select") := w];
      }
    }
    KeepsEach(AttributeParse(hxPrefix, env), key, v, writes);
  }

  /** On an element, what the `j`-th attribute, a directive, writes survives
      `_parseAttributes` when every later attribute of the element, and every attribute
      that is no directive (as those the marker adds), keeps it. */
  lemma LastWriterOfElementWins(hxPrefix: string, env: Env, attributes: Attributes, j: nat, writes: map<string, string>)
    requires ValidHxPrefix(hxPrefix) && j < |attributes.keys| && IsDirectiveKey(attributes.keys[j])
    requires Sets(AttributeParse(hxPrefix, env), attributes.keys[j], attributes.values[attributes.keys[j]], writes)
    requires forall m :: j < m < |attributes.keys| ==>
               Keeps(AttributeParse(hxPrefix, env), attributes.keys[m], attributes.values[attributes.keys[m]], writes)
    requires forall k, v :: !IsDirectiveKey(k) ==> Keeps(AttributeParse(hxPrefix, env), k, v, writes)
    ensures var r := ParseAttributes(hxPrefix, env, attributes).outcome;
            r.Ok? ==> Holds(r.value, writes)
  {
    var marked := ParseSprigAttribute(hxPrefix, env, attributes);
    if marked.Ok? {
      var m0 := marked.value;
      var n := |attributes.keys|;
      var parse := AttributeParse(hxPrefix, env);
      MarkerAddsNoDirective(hxPrefix, env, attributes);
      assert m0.keys[j] == m0.keys[..n][j];
      forall m | j < m < |m0.keys| ensures Keeps(parse, m0.keys[m], m0.values[m0.keys[m]], writes) {
        if m < n {
          assert m0.keys[m] == m0.keys[..n][m];
        }
      }
      LastDirectiveWins(parse, m0, m0, 0, j, [], writes);
    }
  }

  /** On an element, the last attribute that writes a directive's htmx attribute decides
      it: in `s-replace="#a" s-target="#b" s-trigger="load"`, `s-target` sets `hx-target`. */
  lemma LastDirectiveOfElementWins(hxPrefix: string, env: Env, attributes: Attributes, j: nat)
    requires ValidHxPrefix(hxPrefix) && j < |attributes.keys|
    requires SprigAttributeName(attributes.keys[j]) in HtmxAttributes
    requires SprigAttributeName(attributes.keys[j]) != "headers" && SprigAttributeName(attributes.keys[j]) != "vals"
    requires forall m :: j < m < |attributes.keys| ==>
               !MayWrite(SprigAttributeName(attributes.keys[m]), SprigAttributeName(attributes.keys[j]))
    ensures var hx := HxKey(hxPrefix, SprigAttributeName(attributes.keys[j]));
            var r := ParseAttributes(hxPrefix, env, attributes).outcome;
            r.Ok? ==> hx in r.value.values && r.value.values[hx] == attributes.values[attributes.keys[j]]
  {
    var key := attributes.keys[j];
    var v := attributes.values[key];
    var name := SprigAttributeName(key);
    var hx := HxKey(hxPrefix, name);
    var parse := AttributeParse(hxPrefix, env);
    HtmxNameIsPlain(name);
    NamedKeyIsDirective(key);
    PlainDirectiveSets(hxPrefix, env, key, v);
    forall m | j < m < |attributes.keys|
      ensures Keeps(parse, attributes.keys[m], attributes.values[attributes.keys[m]], map[hx := v])
    {
      PlainKeeps(hxPrefix, env, attributes.keys[m], attributes.values[attributes.keys[m]], name, v);
    }
    forall k, w | !IsDirectiveKey(k) ensures Keeps(parse, k, w, map[hx := v]) {
      NonDirectiveHasNoName(k);
      PlainKeeps(hxPrefix, env, k, w, name, v);
    }
    LastWriterOfElementWins(hxPrefix, env, attributes, j, map[hx := v]);
    assert hx in map[hx := v];
  }

  /** On an element, an `s-replace` after which no attribute writes `hx-select`, `hx-target`
      or `hx-swap` decides all three: in `s-target="#b" s-replace="#a" s-trigger="load"`,
      `hx-target` is `#a`. */
  lemma LastReplaceOfElementWins(hxPrefix: string, env: Env, attributes: Attributes, j: nat)
    requires ValidHxPrefix(hxPrefix) && j < |attributes.keys|
    requires SprigAttributeName(attributes.keys[j]) == "replace"
    requires forall m :: j < m < |attributes.keys| ==>
               && !MayWrite(SprigAttributeName(attributes.keys[m]), "select")
               && !MayWrite(SprigAttributeName(attributes.keys[m]), "target")
               && !MayWrite(SprigAttributeName(attributes.keys[m]), "swap")
    ensures var v := attributes.values[attributes.keys[j]];
            var r := ParseAttributes(hxPrefix, env, attributes).outcome;
            r.Ok? ==> && HxKey(hxPrefix, "select") in r.value.values
                      && HxKey(hxPrefix, "target") in r.value.values
                      && HxKey(hxPrefix, "swap") in r.value.values
                      && r.value.values[HxKey(hxPrefix, "select")] == v
                      && r.value.values[HxKey(hxPrefix, "target")] == v
                      && r.value.values[HxKey(hxPrefix, "swap")] == "outerHTML"
  {
    var key := attributes.keys[j];
    var v := attributes.values[key];
    var writes := ReplaceWrites(hxPrefix, v);
    var parse := AttributeParse(hxPrefix, env);
    NamedKeyIsDirective(key);
    ReplaceDirectiveSets(hxPrefix, env, key, v);
    forall m | j < m < |attributes.keys|
      ensures Keeps(parse, attributes.keys[m], attributes.values[attributes.keys[m]], writes)
    {
      ReplaceKeeps(hxPrefix, env, attributes.keys[m], attributes.values[attributes.keys[m]], v);
    }
    forall k, w | !IsDirectiveKey(k) ensures Keeps(parse, k, w, writes) {
      NonDirectiveHasNoName(k);
      ReplaceKeeps(hxPrefix, env, k, w, v);
    }
    LastWriterOfElementWins(hxPrefix, env, attributes, j, writes);
    assert HxKey(hxPrefix, "select") in writes && HxKey(hxPrefix, "target") in writes
           && HxKey(hxPrefix, "swap") in writes;
  }
}
