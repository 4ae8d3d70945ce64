/** What `create` assembles around the rendered markup: the hashed `$values` the browser
    sends back, the wrapper element's attributes, and the order of the steps. */
module Creation {

  import opened Results
  import opened OrderedMaps
  import opened Php
  import opened JsonValues
  import opened Errors
  import opened Variables
  import opened Directives
  import opened Collaborators
  import opened Rewriter
  import opened Html

  /** The `$values` key a variable is sent back under. */
  function VariableKey(name: string): (k: string)
    ensures StartsWith(k, "sprig:variables[")
  {
    assert ("sprig:variables[" + name + "]")[..16] == "sprig:variables[";
    "sprig:variables[" + name + "]"
  }

  lemma VariableKeyInjective(a: string, b: string)
    requires a != b
    ensures VariableKey(a) != VariableKey(b)
  {
    if |a| == |b| {
      var i :| 0 <= i < |a| && a[i] != b[i];
      assert VariableKey(a)[16 + i] == a[i];
      assert VariableKey(b)[16 + i] == b[i];
    } else {
      assert |VariableKey(a)| != |VariableKey(b)|;
    }
  }

  /** How the component was found, and the markup it rendered. */
  datatype Rendering = Rendering(kind: string, html: string)

  /** A component class of that name, rendered; otherwise the template of that name, which
      must exist. */
  function Render(env: Env, value: string, variables: OrderedMap<Variable>): (r: Result<Rendering, Error>)
    ensures r.Ok? ==> r.value.kind == "component" || r.value.kind == "template"
    ensures r.Err? <==> env.renderComponent(value, variables).None? && !env.templateExists(value)
    ensures r.Err? ==> r.error == TemplateNotFound(value)
  {
    match env.renderComponent(value, variables)
    case Some(html) => Ok(Rendering("component", html))
    case None =>
      if !env.templateExists(value) then Err(TemplateNotFound(value))
      else Ok(Rendering("template", env.renderTemplate(value, variables)))
  }

  /** `$values` once the site and the component or template are in. */
  function BaseValues(env: Env, kind: string, value: string): OrderedMap<Json>
  {
    Put(Single("sprig:siteId", JString(env.hashData(IntString(env.siteId)))), "sprig:" + kind, JString(env.hashData(value)))
  }

  /** How the loop hashes one variable. */
  type Hasher = (string, Variable) -> Result<string, Error>

  /** `_hashVariable` under the site's security service and JSON encoder. */
  function VariableHash(env: Env): Hasher
  {
    (name, v) => HashVariable(env.hashData, env.jsonEncode, name, v)
  }

  /** The `foreach` over the caller's variables, from the `i`-th on, adding each hash. */
  function HashVariables(hash: Hasher, values: OrderedMap<Json>, variables: OrderedMap<Variable>, i: nat)
    : Result<OrderedMap<Json>, Error>
    requires i <= |variables.keys|
    decreases |variables.keys| - i
  {
    if i == |variables.keys| then Ok(values)
    else
      var name := variables.keys[i];
      match hash(name, variables.values[name])
      case Err(e) => Err(e)
      case Ok(h) => HashVariables(hash, Put(values, VariableKey(name), JString(h)), variables, i + 1)
  }

  /** `$values` as `create` sends it: the site, the component or template, and the caller's
      variables (not those the request or the event added). */
  function ComponentValues(env: Env, kind: string, value: string, variables: OrderedMap<Variable>)
    : Result<OrderedMap<Json>, Error>
  {
    HashVariables(VariableHash(env), BaseValues(env, kind, value), variables, 0)
  }

  /** The id a component gets when the caller gives none. */
  function DefaultId(env: Env): (id: string)
    ensures StartsWith(id, "component-") && id[0] !in "0123456789"
  {
    assert ("component-" + env.randomString)[..10] == "component-";
    "component-" + env.randomString
  }

  /** The caller's id when there is one, even an empty one; the default otherwise. */
  function ComponentId(env: Env, attributes: Attributes): (id: string)
    ensures "id" in attributes.values ==> id == attributes.values["id"]
    ensures "id" !in attributes.values ==> StartsWith(id, "component-")
  {
    if "id" in attributes.values then attributes.values["id"] else DefaultId(env)
  }

  /** The names of the attributes `create` gives every component, in order. */
  function BaseKeys(hxPrefix: string): (ks: seq<string>)
    ensures forall i, j :: 0 <= i < j < |ks| ==> ks[i] != ks[j]
  {
    BaseKeysDistinct(hxPrefix);
    ["id", "class", HxKey(hxPrefix, "target"), HxKey(hxPrefix, "include"), HxKey(hxPrefix, "trigger"),
     HxKey(hxPrefix, "get"), HxKey(hxPrefix, "vals")]
  }

  lemma BaseKeysDistinct(hxPrefix: string)
    ensures var ks := ["id", "class", HxKey(hxPrefix, "target"), HxKey(hxPrefix, "include"),
                       HxKey(hxPrefix, "trigger"), HxKey(hxPrefix, "get"), HxKey(hxPrefix, "vals")];
            forall i, j :: 0 <= i < j < |ks| ==> ks[i] != ks[j]
  {
    HxKeyInjective(hxPrefix, "target", "include");
    HxKeyInjective(hxPrefix, "target", "trigger");
    HxKeyInjective(hxPrefix, "target", "get");
    HxKeyInjective(hxPrefix, "target", "vals");
    HxKeyInjective(hxPrefix, "include", "trigger");
    HxKeyInjective(hxPrefix, "include", "get");
    HxKeyInjective(hxPrefix, "include", "vals");
    HxKeyInjective(hxPrefix, "trigger", "get");
    HxKeyInjective(hxPrefix, "trigger", "vals");
    HxKeyInjective(hxPrefix, "get", "vals");
    assert |HxKey(hxPrefix, "target")| >= 6 && |HxKey(hxPrefix, "include")| >= 6;
    assert |HxKey(hxPrefix, "trigger")| >= 6 && |HxKey(hxPrefix, "get")| >= 6 && |HxKey(hxPrefix, "vals")| >= 6;
  }

  /** The array literal of the attributes `create` gives every component before the
      caller's are merged in: the id, the class, and the htmx attributes that make the
      component refresh itself from the render action with `$values`. */
  function BaseAttributes(hxPrefix: string, env: Env, id: string, values: OrderedMap<Json>): Attributes
  {
    Assoc(BaseKeys(hxPrefix),
          map["id" := id, "class" := "sprig-component",
              HxKey(hxPrefix, "target") := "this",
              HxKey(hxPrefix, "include") := "#" + id + " *",
              HxKey(hxPrefix, "trigger") := "refresh",
              HxKey(hxPrefix, "get") := env.actionUrl(RenderAction, Empty()),
              HxKey(hxPrefix, "vals") := env.json.htmlEncode(JObject(values))])
  }

  /** The wrapper's attributes before they are parsed: the base ones, overridden by the
      caller's. */
  function ComponentAttributes(hxPrefix: string, env: Env, values: OrderedMap<Json>, attributes: Attributes): Attributes
  {
    Merge(BaseAttributes(hxPrefix, env, ComponentId(env, attributes), values), attributes)
  }

  /** `create($value, $variables, $attributes)`: the component markup, or the exception, and
      the deprecations logged on the way. */
  function Create(hxPrefix: string, env: Env, value: string, variables: OrderedMap<Variable>, attributes: Attributes)
    : Logged<string>
  {
    var event := env.beforeCreate(ComponentEvent(value, Merge(variables, env.requestVariables), attributes));
    match Render(env, event.value, event.variables)
    case Err(e) => Logged(Err(e), [])
    case Ok(rendering) =>
      var content := ParseHtml(hxPrefix, env, rendering.html);
      match content.outcome
      case Err(e) => Logged(Err(e), content.logged)
      case Ok(html) =>
        match ComponentValues(env, rendering.kind, event.value, variables)
        case Err(e) => Logged(Err(e), content.logged)
        case Ok(values) =>
          var parsed := ParseAttributes(hxPrefix, env, ComponentAttributes(hxPrefix, env, values, event.attributes));
          match parsed.outcome
          case Err(e) => Logged(Err(e), content.logged + parsed.logged)
          case Ok(final) => Logged(Ok(env.afterCreate(env.tag("div", html, final))), content.logged + parsed.logged)
  }

  /** The loop succeeds exactly when every remaining variable hashes; otherwise it fails
      with the error of the first one that does not. */
  lemma {:induction false} HashVariablesSucceeds(hash: Hasher, values: OrderedMap<Json>, variables: OrderedMap<Variable>, i: nat)
    requires i <= |variables.keys|
    ensures HashVariables(hash, values, variables, i).Ok? <==>
              forall j :: i <= j < |variables.keys| ==> hash(variables.keys[j], variables.values[variables.keys[j]]).Ok?
    ensures HashVariables(hash, values, variables, i).Err? ==>
              exists j :: && i <= j < |variables.keys|
                          && (forall k :: i <= k < j ==> hash(variables.keys[k], variables.values[variables.keys[k]]).Ok?)
                          && hash(variables.keys[j], variables.values[variables.keys[j]]).Err?
                          && HashVariables(hash, values, variables, i).error
                             == hash(variables.keys[j], variables.values[variables.keys[j]]).error
    decreases |variables.keys| - i
  {
    if i < |variables.keys| {
      var name := variables.keys[i];
      var h := hash(name, variables.values[name]);
      if h.Ok? {
        var rest := Put(values, VariableKey(name), JString(h.value));
        HashVariablesSucceeds(hash, rest, variables, i + 1);
        if HashVariables(hash, rest, variables, i + 1).Err? {
          var j :| && i + 1 <= j < |variables.keys|
                   && (forall k :: i + 1 <= k < j ==> hash(variables.keys[k], variables.values[variables.keys[k]]).Ok?)
                   && hash(variables.keys[j], variables.values[variables.keys[j]]).Err?
                   && HashVariables(hash, rest, variables, i + 1).error
                      == hash(variables.keys[j], variables.values[variables.keys[j]]).error;
          assert forall k :: i <= k < j ==> hash(variables.keys[k], variables.values[variables.keys[k]]).Ok?;
        }
      }
    }
  }

  /** Each remaining variable's key holds its hash once the loop is done. */
  lemma HashVariablesEntries(hash: Hasher, values: OrderedMap<Json>, variables: OrderedMap<Variable>, i: nat)
    requires i <= |variables.keys|
    ensures var r := HashVariables(hash, values, variables, i);
            r.Ok? ==> forall j :: i <= j < |variables.keys| ==>
                        && VariableKey(variables.keys[j]) in r.value.values
                        && hash(variables.keys[j], variables.values[variables.keys[j]]).Ok?
                        && r.value.values[VariableKey(variables.keys[j])]
                           == JString(hash(variables.keys[j], variables.values[variables.keys[j]]).value)
  {
    forall j | i <= j < |variables.keys| {
      HashVariablesEntryAt(hash, values, variables, i, j);
    }
  }

  /** The `j`-th variable's key holds its hash once the loop is done. */
  lemma {:induction false} HashVariablesEntryAt(hash: Hasher, values: OrderedMap<Json>, variables: OrderedMap<Variable>,
                                                i: nat, j: nat)
    requires i <= j < |variables.keys|
    ensures var r := HashVariables(hash, values, variables, i);
            var name := variables.keys[j];
            r.Ok? ==> && VariableKey(name) in r.value.values
                      && hash(name, variables.values[name]).Ok?
                      && r.value.values[VariableKey(name)]
                         == JString(hash(name, variables.values[name]).value)
    decreases |variables.keys| - i
  {
    var r := HashVariables(hash, values, variables, i);
    if r.Ok? {
      var name := variables.keys[i];
      var h := hash(name, variables.values[name]);
      var next := Put(values, VariableKey(name), JString(h.value));
      assert r == HashVariables(hash, next, variables, i + 1);
      if j == i {
        assert VariableKey(name) in next.values && next.values[VariableKey(name)] == JString(h.value) by {
          PutKeepsOrder(values, VariableKey(name), JString(h.value));
        }
        forall m | i + 1 <= m < |variables.keys| ensures VariableKey(name) != VariableKey(variables.keys[m]) {
          VariableKeyInjective(variables.keys[m], name);
        }
        HashVariablesKeepsKey(hash, next, variables, i + 1, VariableKey(name));
      } else {
        HashVariablesEntryAt(hash, next, variables, i + 1, j);
      }
    }
  }

  /** A key that none of the remaining variables is sent under keeps its value. */
  lemma {:induction false} HashVariablesKeepsKey(hash: Hasher, values: OrderedMap<Json>, variables: OrderedMap<Variable>,
                                                 i: nat, k: string)
    requires i <= |variables.keys| && k in values.values
    requires forall j :: i <= j < |variables.keys| ==> k != VariableKey(variables.keys[j])
    ensures var r := HashVariables(hash, values, variables, i);
            r.Ok? ==> k in r.value.values && r.value.values[k] == values.values[k]
    decreases |variables.keys| - i
  {
    var r := HashVariables(hash, values, variables, i);
    if i < |variables.keys| && r.Ok? {
      var name := variables.keys[i];
      var h := hash(name, variables.values[name]);
      HashVariablesKeepsKey(hash, Put(values, VariableKey(name), JString(h.value)), variables, i + 1, k);
    }
  }

  /** The `$values` keys of a run of variable names. */
  function SentKeys(names: seq<string>): set<string>
  {
    if names == [] then {} else {VariableKey(names[0])} + SentKeys(names[1..])
  }

  lemma {:induction false} SentKeysOf(names: seq<string>)
    ensures SentKeys(names) == set n | n in names :: VariableKey(n)
  {
    if names != [] {
      SentKeysOf(names[1..]);
      assert names == [names[0]] + names[1..];
    }
  }

  /** The loop adds exactly the remaining variables' keys. */
  lemma HashVariablesDomain(hash: Hasher, values: OrderedMap<Json>, variables: OrderedMap<Variable>, i: nat)
    requires i <= |variables.keys|
    ensures var r := HashVariables(hash, values, variables, i);
            r.Ok? ==> r.value.values.Keys == values.values.Keys + SentKeys(variables.keys[i..])
  {
    var r := HashVariables(hash, values, variables, i);
    if r.Ok? {
      forall x ensures x in r.value.values <==> x in values.values || x in SentKeys(variables.keys[i..]) {
        HashVariablesHasKey(hash, values, variables, i, x);
      }
    }
  }

  /** ... one key at a time. */
  lemma {:induction false} HashVariablesHasKey(hash: Hasher, values: OrderedMap<Json>, variables: OrderedMap<Variable>,
                                               i: nat, x: string)
    requires i <= |variables.keys|
    ensures var r := HashVariables(hash, values, variables, i);
            r.Ok? ==> (x in r.value.values <==> x in values.values || x in SentKeys(variables.keys[i..]))
    decreases |variables.keys| - i
  {
    var r := HashVariables(hash, values, variables, i);
    if i < |variables.keys| && r.Ok? {
      var name := variables.keys[i];
      var h := hash(name, variables.values[name]);
      var next := Put(values, VariableKey(name), JString(h.value));
      assert x in next.values <==> x in values.values || x == VariableKey(name) by {
        PutKeepsOrder(values, VariableKey(name), JString(h.value));
      }
      assert r == HashVariables(hash, next, variables, i + 1);
      HashVariablesHasKey(hash, next, variables, i + 1, x);
      assert SentKeys(variables.keys[i..]) == {VariableKey(name)} + SentKeys(variables.keys[i + 1..]) by {
        assert variables.keys[i..][0] == name && variables.keys[i..][1..] == variables.keys[i + 1..];
      }
    } else if r.Ok? {
      assert variables.keys[i..] == [];
    }
  }

  /** The site and component entries are never taken for a variable's. */
  lemma BaseKeyIsNoVariableKey(kind: string, name: string)
    requires kind == "component" || kind == "template"
    ensures "sprig:siteId" != VariableKey(name) && "sprig:" + kind != VariableKey(name)
  {
    var k := VariableKey(name);
    assert k[6] == k[..16][6] == 'v';
    assert ("sprig:" + kind)[6] == kind[0];
  }

  /** `$values` can be built exactly when none of the caller's variables holds an object;
      the variables the request or the event add are not checked. */
  lemma ComponentValuesSucceeds(env: Env, kind: string, value: string, variables: OrderedMap<Variable>)
    ensures ComponentValues(env, kind, value, variables).Ok? <==>
              forall n :: n in variables.values ==> Storable(variables.values[n])
  {
    var hash := VariableHash(env);
    HashVariablesSucceeds(hash, BaseValues(env, kind, value), variables, 0);
    forall n | n in variables.values
      ensures (exists j :: 0 <= j < |variables.keys| && variables.keys[j] == n)
              && (hash(n, variables.values[n]).Ok? <==> Storable(variables.values[n]))
    {
      assert n in variables.keys;
    }
  }

  /** `$values` holds the site entry, the component or template entry and one entry per
      variable the caller passed, and nothing else. */
  lemma ComponentValuesKeys(env: Env, kind: string, value: string, variables: OrderedMap<Variable>)
    ensures var r := ComponentValues(env, kind, value, variables);
            r.Ok? ==> r.value.values.Keys == {"sprig:siteId", "sprig:" + kind} + (set n | n in variables.values :: VariableKey(n))
  {
    var base := BaseValues(env, kind, value);
    assert base.values.Keys == {"sprig:siteId", "sprig:" + kind} by {
      PutKeepsOrder(Single("sprig:siteId", JString(env.hashData(IntString(env.siteId)))), "sprig:" + kind,
                    JString(env.hashData(value)));
    }
    assert SentKeys(variables.keys[0..]) == set n | n in variables.values :: VariableKey(n) by {
      assert variables.keys[0..] == variables.keys;
      SentKeysOf(variables.keys);
      assert forall n :: n in variables.keys <==> n in variables.values;
    }
    HashVariablesDomain(VariableHash(env), base, variables, 0);
  }

  /** The entries of `$values`: the hashed site id, the hashed component or template name,
      and each caller variable's hash under its key. */
  lemma ComponentValuesEntries(env: Env, kind: string, value: string, variables: OrderedMap<Variable>)
    requires kind == "component" || kind == "template"
    ensures var r := ComponentValues(env, kind, value, variables);
            r.Ok? ==>
              && "sprig:siteId" in r.value.values && "sprig:" + kind in r.value.values
              && r.value.values["sprig:siteId"] == JString(env.hashData(IntString(env.siteId)))
              && r.value.values["sprig:" + kind] == JString(env.hashData(value))
              && forall n :: n in variables.values ==>
                   && VariableKey(n) in r.value.values
                   && HashVariable(env.hashData, env.jsonEncode, n, variables.values[n]).Ok?
                   && r.value.values[VariableKey(n)]
                      == JString(HashVariable(env.hashData, env.jsonEncode, n, variables.values[n]).value)
  {
    var base := BaseValues(env, kind, value);
    var hash := VariableHash(env);
    var r := ComponentValues(env, kind, value, variables);
    if r.Ok? {
      assert "sprig:siteId" != "sprig:" + kind by {
        assert "sprig:siteId"[6] == 's' && ("sprig:" + kind)[6] == kind[0];
      }
      HashVariablesEntries(hash, base, variables, 0);
      forall j | 0 <= j < |variables.keys| ensures "sprig:siteId" != VariableKey(variables.keys[j])
                                                  && "sprig:" + kind != VariableKey(variables.keys[j]) {
        BaseKeyIsNoVariableKey(kind, variables.keys[j]);
      }
      HashVariablesKeepsKey(hash, base, variables, 0, "sprig:siteId");
      HashVariablesKeepsKey(hash, base, variables, 0, "sprig:" + kind);
      forall n | n in variables.values
        ensures && VariableKey(n) in r.value.values
                && HashVariable(env.hashData, env.jsonEncode, n, variables.values[n]).Ok?
                && r.value.values[VariableKey(n)]
                   == JString(HashVariable(env.hashData, env.jsonEncode, n, variables.values[n]).value)
      {
        assert n in variables.keys;
        assert hash(n, variables.values[n]) == HashVariable(env.hashData, env.jsonEncode, n, variables.values[n]);
      }
    }
  }

  /** The caller's attributes win over the base ones: every caller attribute keeps its
      value, every base attribute the caller does not set keeps the base value, and the base
      attributes come first, followed by the caller's new ones. */
  lemma CallerAttributesWin(hxPrefix: string, env: Env, values: OrderedMap<Json>, caller: Attributes)
    ensures var base := BaseAttributes(hxPrefix, env, ComponentId(env, caller), values);
            var attrs := ComponentAttributes(hxPrefix, env, values, caller);
            && attrs.keys == base.keys + Fresh(caller.keys, base.values.Keys)
            && (forall k :: k in caller.values ==> k in attrs.values && attrs.values[k] == caller.values[k])
            && (forall k :: k in base.values && k !in caller.values ==> k in attrs.values && attrs.values[k] == base.values[k])
            && "id" in attrs.values && attrs.values["id"] == ComponentId(env, caller)
  {
    var id := ComponentId(env, caller);
    var base := BaseAttributes(hxPrefix, env, id, values);
    MergeWins(base, caller);
    assert "id" in base.values && base.values["id"] == id;
  }

  /** Unless the caller sets them, `hx-vals` carries `$values` and `hx-include` points at
      the component's own inputs. */
  lemma ComponentAttributesCarryValues(hxPrefix: string, env: Env, values: OrderedMap<Json>, caller: Attributes)
    requires RoundTrips(env.json)
    ensures var attrs := ComponentAttributes(hxPrefix, env, values, caller);
            var id := ComponentId(env, caller);
            && (HxKey(hxPrefix, "vals") !in caller.values ==>
                  HxKey(hxPrefix, "vals") in attrs.values
                  && env.json.decode(attrs.values[HxKey(hxPrefix, "vals")]) == Some(JObject(values)))
            && (HxKey(hxPrefix, "include") !in caller.values ==>
                  HxKey(hxPrefix, "include") in attrs.values
                  && attrs.values[HxKey(hxPrefix, "include")] == "#" + id + " *")
  {
    var id := ComponentId(env, caller);
    BaseAttributesRefresh(hxPrefix, env, id, values);
    CallerAttributesWin(hxPrefix, env, values, caller);
  }

  /** The base attributes send `$values`, HTML-encoded, and include the component's inputs. */
  lemma BaseAttributesRefresh(hxPrefix: string, env: Env, id: string, values: OrderedMap<Json>)
    ensures var base := BaseAttributes(hxPrefix, env, id, values);
            && HxKey(hxPrefix, "vals") in base.values
            && base.values[HxKey(hxPrefix, "vals")] == env.json.htmlEncode(JObject(values))
            && HxKey(hxPrefix, "include") in base.values
            && base.values[HxKey(hxPrefix, "include")] == "#" + id + " *"
  {
    HxKeyInjective(hxPrefix, "include", "trigger");
    HxKeyInjective(hxPrefix, "include", "get");
    HxKeyInjective(hxPrefix, "include", "vals");
  }

  /** A value that is neither a component class nor an existing template makes `create`
      throw before anything is parsed or logged. */
  lemma CreateTemplateMissing(hxPrefix: string, env: Env, value: string, variables: OrderedMap<Variable>,
                              attributes: Attributes)
    ensures var event := env.beforeCreate(ComponentEvent(value, Merge(variables, env.requestVariables), attributes));
            env.renderComponent(event.value, event.variables).None? && !env.templateExists(event.value) ==>
              Create(hxPrefix, env, value, variables, attributes) == Logged(Err(TemplateNotFound(event.value)), [])
  {
  }

  /** `create` only succeeds when every variable the caller passed holds no object; the
      variables the request or the event added are rendered but never hashed. */
  lemma CreateValidatesCallerVariables(hxPrefix: string, env: Env, value: string, variables: OrderedMap<Variable>,
                                       attributes: Attributes)
    ensures Create(hxPrefix, env, value, variables, attributes).outcome.Ok? ==>
              forall n :: n in variables.values ==> Storable(variables.values[n])
  {
    var event := env.beforeCreate(ComponentEvent(value, Merge(variables, env.requestVariables), attributes));
    var rendered := Render(env, event.value, event.variables);
    if rendered.Ok? {
      ComponentValuesSucceeds(env, rendered.value.kind, event.value, variables);
    }
  }

  /** A variable of the caller's that holds an object makes `$values` fail with the error
      naming a variable. */
  lemma ComponentValuesRejectsObjects(env: Env, kind: string, value: string, variables: OrderedMap<Variable>, n: string)
    requires n in variables.values && !Storable(variables.values[n])
    ensures var r := ComponentValues(env, kind, value, variables);
            r.Err? && r.error.InvalidVariable?
  {
    var hash := VariableHash(env);
    var r := ComponentValues(env, kind, value, variables);
    ComponentValuesSucceeds(env, kind, value, variables);
    HashVariablesSucceeds(hash, BaseValues(env, kind, value), variables, 0);
    var j :| && 0 <= j < |variables.keys|
             && hash(variables.keys[j], variables.values[variables.keys[j]]).Err?
             && r.error == hash(variables.keys[j], variables.values[variables.keys[j]]).error;
    assert r.error.InvalidVariable?;
  }

  /** Once the markup is rendered and parsed, a variable of the caller's that holds an
      object makes `create` throw the error naming a variable. */
  lemma CreateRejectsObjects(hxPrefix: string, env: Env, value: string, variables: OrderedMap<Variable>,
                             attributes: Attributes, n: string)
    requires n in variables.values && !Storable(variables.values[n])
    ensures var event := env.beforeCreate(ComponentEvent(value, Merge(variables, env.requestVariables), attributes));
            var rendered := Render(env, event.value, event.variables);
            var r := Create(hxPrefix, env, value, variables, attributes);
            rendered.Ok? && ParseHtml(hxPrefix, env, rendered.value.html).outcome.Ok? ==>
              r.outcome.Err? && r.outcome.error.InvalidVariable?
              && r.logged == ParseHtml(hxPrefix, env, rendered.value.html).logged
  {
    var event := env.beforeCreate(ComponentEvent(value, Merge(variables, env.requestVariables), attributes));
    var rendered := Render(env, event.value, event.variables);
    if rendered.Ok? {
      ComponentValuesRejectsObjects(env, rendered.value.kind, event.value, variables, n);
    }
  }
}
