/** The components service as an object: the htmx prefix fixed when it starts, the
    collaborators it calls, and Craft's deprecation log, which `_parseAttribute` appends to.
    Each method does what the source does step by step and is proved to agree with the
    definitions in `Directives`, `Variables`, `Rewriter`, `Html` and `Creation`. */
module Service {

  import opened Results
  import opened OrderedMaps
  import opened Php
  import opened JsonValues
  import opened Errors
  import opened Variables
  import opened Directives
  import opened Collaborators
  import opened Rewriter
  import opened Html
  import opened Creation

  /** Craft's deprecation log: the notices logged so far, in order. */
  class Deprecator {
    var log: seq<Deprecation>

    constructor ()
      ensures log == []
    {
      log := [];
    }

    method Log(d: Deprecation)
      modifies this
      ensures log == old(log) + [d]
    {
      log := log + [d];
    }
  }

  /** ComponentsService: the prefix `init` fixes, the collaborators, and the deprecation log
      its methods append to. */
  class ComponentsService {
    /** `_hxPrefix`: what the htmx attributes the service writes are prefixed with. */
    const hxPrefix: string
    const env: Env
    const deprecator: Deprecator

    /** `init()`: the `data-` prefix when the plugin's `hxDataPrefix` setting is on. */
    constructor (hxDataPrefix: bool, env: Env, deprecator: Deprecator)
      ensures ValidHxPrefix(hxPrefix)
      ensures hxPrefix == (if hxDataPrefix then "data-" else "")
      ensures this.env == env && this.deprecator == deprecator
    {
      this.hxPrefix := if hxDataPrefix then "data-" else "";
      this.env := env;
      this.deprecator := deprecator;
    }

    /** `_getSprigAttributeName($key)`: the prefixes are tried in order and the first that,
        followed by `-`, begins the key gives the name. */
    method SprigAttributeName(key: string) returns (name: string)
      ensures name == Directives.SprigAttributeName(key)
    {
      var i := 0;
      while i < |SprigPrefixes|
        invariant i <= |SprigPrefixes|
        invariant NameAfterPrefix(SprigPrefixes[i..], key) == Directives.SprigAttributeName(key)
      {
        var prefix := SprigPrefixes[i];
        if StartsWith(key, prefix + "-") {
          return key[|prefix| + 1..];
        }
        assert SprigPrefixes[i..][1..] == SprigPrefixes[i + 1..];
        i := i + 1;
      }
      return "";
    }

    /** `_getSprigAttributeValue($attributes, $name)`: the first authoring form of the
        directive that is present and not PHP-empty gives the value. */
    method SprigAttributeValue(attributes: Attributes, name: string) returns (value: string)
      ensures value == Directives.SprigAttributeValue(attributes, name)
    {
      var i := 0;
      while i < |SprigPrefixes|
        invariant i <= |SprigPrefixes|
        invariant ValueAfterPrefix(SprigPrefixes[i..], attributes, name) == Directives.SprigAttributeValue(attributes, name)
      {
        var key := SprigPrefixes[i] + "-" + name;
        if key in attributes.values && !IsEmpty(attributes.values[key]) {
          return attributes.values[key];
        }
        assert SprigPrefixes[i..][1..] == SprigPrefixes[i + 1..];
        i := i + 1;
      }
      return "";
    }

    /** `_validateVariableType($name, $value, $isArray)`: an object fails with the template
        of what it is; an array has each of its values validated as nested, in order. */
    method ValidateVariableType(name: string, value: Variable, isArray: bool) returns (r: Outcome<Error>)
      ensures r == Variables.ValidateVariableType(name, value, isArray)
      decreases value
    {
      match value
      case VObject(isElement, isModel) =>
        return Fail(InvalidVariable(KindOf(isElement, isModel), name, isArray));
      case VArray(entries) =>
        var i := 0;
        while i < |entries|
          invariant i <= |entries|
          invariant ValidateEntries(name, entries, i) == ValidateEntries(name, entries, 0)
        {
          assert entries[i] in entries;
          var nested := ValidateVariableType(name, entries[i].value, true);
          if nested.Fail? {
            return nested;
          }
          i := i + 1;
        }
        return Pass;
      case _ =>
        return Pass;
    }

    /** `_hashVariable($name, $value)` */
    method HashVariable(name: string, value: Variable) returns (r: Result<string, Error>)
      ensures r == Variables.HashVariable(env.hashData, env.jsonEncode, name, value)
    {
      var valid := ValidateVariableType(name, value, false);
      if valid.Fail? {
        return Err(valid.error);
      }
      var text := if value.VArray? then env.jsonEncode(value) else ScalarString(value);
      return Ok(env.hashData(text));
    }

    /** `_mergeJsonAttributes($attributes, $name, $values)` */
    method MergeJsonAttributes(attributes: Attributes, name: string, values: JsonArg)
      returns (r: Result<Attributes, Error>)
      ensures r == Rewriter.MergeJsonAttributes(hxPrefix, env.json, attributes, name, values)
    {
      var incoming: Json;
      match values {
        case JsonText(text) =>
          if StartsWith(text, "javascript:") {
            return Err(UnsafeJavascript(name));
          }
          match env.json.decode(text) {
            case None => return Err(MalformedJson(text));
            case Some(j) => incoming := j;
          }
        case JsonPairs(pairs) =>
          incoming := JObject(pairs);
      }
      var key := HxKey(hxPrefix, name);
      if key in attributes.values && !IsEmpty(attributes.values[key]) {
        var merged := MergeInto(env.json, name, attributes.values[key], incoming);
        if merged.Err? {
          return Err(merged.error);
        }
        incoming := merged.value;
      }
      return Ok(Put(attributes, key, env.json.htmlEncode(incoming)));
    }

    /** `_parseSprigAttribute($attributes)` */
    method ParseSprigAttribute(attributes: Attributes) returns (r: Result<Attributes, Error>)
      ensures r == Rewriter.ParseSprigAttribute(hxPrefix, env, attributes)
    {
      if !HasSprigMarker(attributes) {
        return Ok(attributes);
      }
      var verb := "get";
      var current := attributes;
      var requestMethod := SprigAttributeValue(attributes, "method");
      if ToLower(requestMethod) == "post" {
        verb := "post";
        var withHeaders := MergeJsonAttributes(current, "headers", CsrfPairs(env));
        if withHeaders.Err? {
          return withHeaders;
        }
        current := withHeaders.value;
      }
      var action := SprigAttributeValue(current, "action");
      var params := Empty();
      if !IsEmpty(action) {
        params := Single("sprig:action", env.hashData(action));
      }
      return Ok(Put(current, HxKey(hxPrefix, verb), env.actionUrl(RenderAction, params)));
    }
  
    /** `_parseAttribute($attributes, $key, $value)`; an `s-vars` directive is logged as
        deprecated once its value has been carried over. */
    method ParseAttribute(attributes: Attributes, key: string, value: string) returns (r: Result<Attributes, Error>)
      modifies deprecator
      ensures r == Rewriter.ParseAttribute(hxPrefix, env, attributes, key, value)
      ensures deprecator.log == old(deprecator.log) + (if r.Ok? then DeprecationsOf(key) else [])
    {
      var name := SprigAttributeName(key);
      if IsEmpty(name) {
        return Ok(attributes);
      }
      if StartsWith(name, "val:") {
        assert name != "vars" by { assert name[2] == 'l'; }
        var field := env.toCamelCase(name[4..]);
        r := MergeJsonAttributes(attributes, "vals", JsonPairs(Single(field, JString(value))));
      } else if name == "replace" {
        var next := Put(attributes, HxKey(hxPrefix, "select"), value);
        next := Put(next, HxKey(hxPrefix, "target"), value);
        next := Put(next, HxKey(hxPrefix, "swap"), "outerHTML");
        r := Ok(next);
      } else if name in HtmxAttributes {
        if name == "headers" || name == "vals" {
          r := MergeJsonAttributes(attributes, name, JsonText(value));
        } else {
          r := Ok(Put(attributes, HxKey(hxPrefix, name), value));
        }
        if name == "vars" {
          deprecator.Log(VarsDeprecation);
        }
      } else {
        assert HtmxAttributes[26] == "vars";
        r := Ok(attributes);
      }
    }

    /** `_parseAttributes($attributes)`: the marker first, then each attribute of the marked
        array, as it stood before the pass, in order. The first exception ends the pass. */
    method ParseAttributes(attributes: Attributes) returns (r: Result<Attributes, Error>)
      modifies deprecator
      ensures var spec := Rewriter.ParseAttributes(hxPrefix, env, attributes);
              r == spec.outcome && deprecator.log == old(deprecator.log) + spec.logged
    {
      var marked := ParseSprigAttribute(attributes);
      if marked.Err? {
        return marked;
      }
      var snapshot := marked.value;
      var current := snapshot;
      ghost var logged: seq<Deprecation> := [];
      ghost var parse := AttributeParse(hxPrefix, env);
      var i := 0;
      while i < |snapshot.keys|
        invariant i <= |snapshot.keys|
        invariant deprecator.log == old(deprecator.log) + logged
        invariant Rewriter.ParseAttributes(hxPrefix, env, attributes) == ParseEach(parse, current, snapshot, i, logged)
      {
        var key := snapshot.keys[i];
        var next := ParseAttribute(current, key, snapshot.values[key]);
        ParseEachStep(parse, current, snapshot, i, logged, next);
        if next.Err? {
          return next;
        }
        AppendAssociative(old(deprecator.log), logged, DeprecationsOf(key));
        logged := logged + DeprecationsOf(key);
        current := next.value;
        i := i + 1;
      }
      return Ok(current);
    }

    /** `parseHtml($html)`: blank markup comes back as it is; otherwise every element's
        attributes are parsed and written back, and the body's markup has its double-encoded
        entities repaired. */
    method ParseHtml(html: string) returns (r: Result<string, Error>)
      modifies deprecator
      ensures var spec := Html.ParseHtml(hxPrefix, env, html);
              r == spec.outcome && deprecator.log == old(deprecator.log) + spec.logged
    {
      if IsEmpty(Trim(html)) {
        return Ok(html);
      }
      var doc := DocumentShell(html);
      var parsed := ParseElements(env.dom.elements(doc));
      if parsed.Err? {
        return Err(parsed.error);
      }
      var output := env.dom.bodyInnerHtml(doc, parsed.value);
      return Ok(ReplaceAll(output, DoubleEncoded, EntityStart));
    }

    /** The element loop of `parseHtml`: each element's attributes parsed, in document order. */
    method ParseElements(elements: seq<Attributes>) returns (r: Result<seq<Attributes>, Error>)
      modifies deprecator
      ensures var spec := Html.ParseElements(ElementRewrite(hxPrefix, env), elements, 0, [], []);
              r == spec.outcome && deprecator.log == old(deprecator.log) + spec.logged
    {
      var done: seq<Attributes> := [];
      ghost var rewrite := ElementRewrite(hxPrefix, env);
      ghost var logged: seq<Deprecation> := [];
      var i := 0;
      while i < |elements|
        invariant i <= |elements|
        invariant deprecator.log == old(deprecator.log) + logged
        invariant Html.ParseElements(rewrite, elements, 0, [], []) == Html.ParseElements(rewrite, elements, i, done, logged)
      {
        ghost var spec := Rewriter.ParseAttributes(hxPrefix, env, elements[i]);
        var parsed := ParseAttributes(elements[i]);
        ParseElementsStep(rewrite, elements, i, done, logged, spec);
        AppendAssociative(old(deprecator.log), logged, spec.logged);
        if parsed.Err? {
          return Err(parsed.error);
        }
        logged := logged + spec.logged;
        done := done + [parsed.value];
        i := i + 1;
      }
      return Ok(done);
    }

    /** `create($value, $variables, $attributes)` */
    method Create(value: string, variables: OrderedMap<Variable>, attributes: Attributes) returns (r: Result<string, Error>)
      modifies deprecator
      ensures var spec := Creation.Create(hxPrefix, env, value, variables, attributes);
              r == spec.outcome && deprecator.log == old(deprecator.log) + spec.logged
    {
      var event := env.beforeCreate(ComponentEvent(value, Merge(variables, env.requestVariables), attributes));
      var rendering := Render(env, event.value, event.variables);
      if rendering.Err? {
        return Err(rendering.error);
      }
      ghost var start := deprecator.log;
      var content := ParseHtml(rendering.value.html);
      ghost var contentLog := Html.ParseHtml(hxPrefix, env, rendering.value.html).logged;
      if content.Err? {
        return Err(content.error);
      }
      var hashed := ComponentValues(rendering.value.kind, event.value, variables);
      if hashed.Err? {
        return Err(hashed.error);
      }
      var id := if "id" in event.attributes.values then event.attributes.values["id"] else "component-" + env.randomString;
      var merged := Merge(BaseAttributes(hxPrefix, env, id, hashed.value), event.attributes);
      var parsed := ParseAttributes(merged);
      AppendAssociative(start, contentLog, Rewriter.ParseAttributes(hxPrefix, env, merged).logged);
      if parsed.Err? {
        return Err(parsed.error);
      }
      return Ok(env.afterCreate(env.tag("div", content.value, parsed.value)));
    }
  
    /** `$values` in `create`: the site, then the component or template, then a hash per
        variable the caller passed, in order; the first variable holding an object throws. */
    method ComponentValues(kind: string, value: string, variables: OrderedMap<Variable>)
      returns (r: Result<OrderedMap<Json>, Error>)
      ensures r == Creation.ComponentValues(env, kind, value, variables)
    {
      var values := Single("sprig:siteId", JString(env.hashData(IntString(env.siteId))));
      values := Put(values, "sprig:" + kind, JString(env.hashData(value)));
      var i := 0;
      while i < |variables.keys|
        invariant i <= |variables.keys|
        invariant Creation.ComponentValues(env, kind, value, variables) == HashVariables(VariableHash(env), values, variables, i)
      {
        var name := variables.keys[i];
        var hash := HashVariable(name, variables.values[name]);
        if hash.Err? {
          return Err(hash.error);
        }
        values := Put(values, VariableKey(name), JString(hash.value));
        i := i + 1;
      }
      return Ok(values);
    }
  }
}
