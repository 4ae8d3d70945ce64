# Sprig components service, modelled in Dafny

Sprig is a Craft CMS plugin for reactive Twig components. Its `ComponentsService` turns
Sprig directives written on HTML elements (`s-get`, `sprig-target`, `data-s-val:page`,
the bare `sprig` marker, ...) into htmx attributes (`hx-*`, or `data-hx-*` under the
`hxDataPrefix` setting). It also wraps a rendered component in a `div` carrying the
attributes that make the component refresh itself, and it hashes the component's
variables so that they can make the round trip through the browser.

The model covers:

- directive recognition: the prefixes `s`, `sprig`, `data-s` and `data-sprig`, tried in
  that order (`Directives`);
- the marker expansion, the per-directive dispatch and the JSON attribute merge
  (`Rewriter`);
- variable validation and hashing (`Variables`);
- the string steps of `parseHtml` (`Html`);
- how `create` assembles `$values` and the wrapper's attributes (`Creation`);
- the service object itself (`Service`). It holds the prefix `init` fixes and Craft's
  deprecation log, and its methods run the loops step by step. Each method is proved
  equal to the function that specifies it.

PHP arrays with string keys are `OrderedMaps.OrderedMap`: the keys in insertion order and
the map from key to value. `Put` is `$a[$k] = $v`, and `Merge` is `array_merge`. A thrown
exception is an `Err` of the `Errors.Error` datatype. The deprecation notices are a
`seq<Deprecation>`: the class `Service.Deprecator` appends to it, and the specification
functions return it alongside their outcome in `Logged`.

Craft's services and the HTML5 document library are fields of `Collaborators.Env`:

- the security service's `hashData`, `UrlHelper::actionUrl` and the CSRF token;
- `StringHelper::toCamelCase` and `randomString`;
- `Json::decode`, `Json::htmlEncode` and `Json::encode`;
- the document's elements and body markup, and `Html::tag`;
- the view's template lookup and rendering, the component classes, and the event handlers.

A lemma holds for all of them unless it states a requirement. The only requirement used
is `RoundTrips`: decoding what `Json::htmlEncode` produced gives the value back.

## Model

| member | source | states |
|---|---|---|
| Php.StartsWith | src/services/ComponentsService.php:363 | `strpos($s, $prefix) === 0`: the prefix is the first characters of the string; an empty prefix always matches |
| Php.IsEmpty | src/services/ComponentsService.php:381 | `empty()` on a string: only `""` and `"0"` are empty |
| Php.ToLower | src/services/ComponentsService.php:271 | `strtolower`: each ASCII capital becomes its small letter, every other character stays |
| Php.Trim | src/services/ComponentsService.php:204 | `trim`: the default whitespace set (space, tab, newline, carriage return, NUL, vertical tab) stripped from both ends |
| Php.ReplaceAll | src/services/ComponentsService.php:234 | `str_replace`: a left-to-right scan replacing each occurrence that does not overlap an earlier one, never rescanning replaced text |
| OrderedMaps.Put | src/services/ComponentsService.php:285 | `$a[$k] = $v`: an existing key keeps its position and gets the new value, a new key goes last |
| OrderedMaps.Merge | src/services/ComponentsService.php:137-148 | `array_merge($a, $b)` on string keys: the entries of `$b`, in its order, assigned into `$a` one by one |
| Directives.SprigAttributeName | src/services/ComponentsService.php:360-369 | `_getSprigAttributeName`: what follows the first of `s`, `sprig`, `data-s`, `data-sprig` that, followed by `-`, begins the key; `''` if none |
| Directives.SprigAttributeValue | src/services/ComponentsService.php:378-387 | `_getSprigAttributeValue`: the value of the first `prefix-name`, over the same prefixes in order, that is present and not PHP-empty; `''` if none |
| Directives.NameAfterFirstMatch | src/services/ComponentsService.php:360-369 | the name is what follows the first prefix, in order, that followed by `-` begins the key |
| Directives.NameAfterNoMatch | src/services/ComponentsService.php:360-369 | with no matching prefix the name is `''` |
| Directives.SprigAttributeNameForms | src/services/ComponentsService.php:360-369 | each of the four authoring forms gives the same name; `sprig-x` is not read as `s-` and `data-sprig-x` is not read as `data-s-` |
| Directives.NonDirectiveHasNoName | src/services/ComponentsService.php:360-369 | a key without a directive prefix (`class`, `id`, `hx-get`) has the name `''` |
| Directives.NamedKeyIsDirective | src/services/ComponentsService.php:360-369 | a key with a name starts with a directive prefix |
| Directives.HxKeyIsNotDirective | src/services/ComponentsService.php:64-73 | under either prefix `init` allows, no htmx attribute the service writes is a directive |
| Directives.ValueAfterFirstMatch | src/services/ComponentsService.php:378-387 | the value is that of the first present, non-empty `prefix-name`, over the prefixes in order |
| Directives.ValueAfterNoMatch | src/services/ComponentsService.php:378-387 | with no present, non-empty `prefix-name` the value is `''`; a `"0"` value counts as empty |
| Directives.SprigAttributeValueIgnores | src/services/ComponentsService.php:378-387 | writing an attribute that is no directive never changes a directive's value |
| Variables.ValidateVariableType | src/services/ComponentsService.php:408-439 | an object fails with the element, else model, else object template; every failure names the top-level variable and says whether it sat in an array |
| Variables.ValidateEntries | src/services/ComponentsService.php:434-438 | a failure inside an array is reported as nested, under the variable's name |
| Variables.ValidateAcceptsStorable | src/services/ComponentsService.php:408-439 | validation passes exactly when the variable holds no object at any depth: scalars and null pass, and one bad leaf fails the whole array |
| Variables.ValidateEntriesAcceptsStorable | src/services/ComponentsService.php:434-438 | the array loop passes exactly when every remaining value holds no object |
| Variables.HashVariable | src/services/ComponentsService.php:397-406 | hashing succeeds exactly for storable values; an array is JSON-encoded before it is hashed, and a scalar is hashed as its string |
| Rewriter.NewJson | src/services/ComponentsService.php:337-343 | a `javascript:` text is refused before it is decoded, and only text can be refused |
| Rewriter.MergeInto | src/services/ComponentsService.php:347-349 | the merge succeeds exactly when the existing text decodes to an object and the new value is one |
| Rewriter.MergeJsonAttributes | src/services/ComponentsService.php:335-352 | a `javascript:` text throws; on success only `hx-name` is written, in place or appended |
| Rewriter.MergeJsonIntoEmpty | src/services/ComponentsService.php:345-351 | when `hx-name` is absent or PHP-empty it becomes the new value, which decodes back |
| Rewriter.MergeJsonAccumulates | src/services/ComponentsService.php:347-351 | otherwise the old object's keys keep their order with the new ones after them; new values win and old-only values stay |
| Rewriter.MergeJsonNothing | src/services/ComponentsService.php:347-351 | merging an empty map leaves the decoded attribute unchanged |
| Rewriter.MergeJsonFailures | src/services/ComponentsService.php:335-352 | the merge throws exactly on a `javascript:` text, on text that is not JSON, or on a non-empty old value or a new value that is no object |
| Rewriter.ParseSprigAttribute | src/services/ComponentsService.php:258-286 | `_parseSprigAttribute`: an element with neither `sprig` nor `data-sprig` comes back unchanged; a marked one gets `hx-get`, or on a POST the CSRF header merged into `hx-headers` and then `hx-post`, pointing at the render action |
| Rewriter.SprigMarkerGet | src/services/ComponentsService.php:265-285 | a marked element that is not a POST gets exactly `hx-get`: the render action's URL, with the hashed action when one is given |
| Rewriter.SprigMarkerPostFails | src/services/ComponentsService.php:271-276 | on a POST the marker fails exactly when `hx-headers` holds a non-empty value that is no JSON object |
| Rewriter.SprigMarkerPost | src/services/ComponentsService.php:271-285 | on a POST the whole new map is the CSRF merge into `hx-headers` followed by `hx-post` set to the render URL with the action as written; no other attribute changes, and a failed merge is the rewrite's failure |
| Rewriter.SprigMarkerPostUrl | src/services/ComponentsService.php:271-285 | on a POST, `hx-post` gets the render action's URL with the action as written on the element |
| Rewriter.SprigMarkerPostCsrf | src/services/ComponentsService.php:271-276 | on a POST, `hx-headers` decodes to an object that carries the CSRF token under `X-CSRF-Token` |
| Rewriter.CsrfMerged | src/services/ComponentsService.php:274-276 | when the merge succeeds, `hx-headers` decodes to an object holding the token under the CSRF header name, whatever object it held before |
| Rewriter.ParseSprigAttributeOnlyHxWrites | src/services/ComponentsService.php:258-286 | the marker step writes htmx attributes only |
| Rewriter.ParseAttribute | src/services/ComponentsService.php:295-326 | `_parseAttribute`: a non-directive is ignored; `val:f` merges into `hx-vals`; `replace` writes select, target and swap; `headers` and `vals` go through the JSON merge; another htmx name sets `hx-name`; any other name is ignored |
| Rewriter.DeprecationsOf | src/services/ComponentsService.php:321-324 | at most one notice per attribute, and one exactly for a `vars` directive |
| Rewriter.NonDirectiveIgnored | src/services/ComponentsService.php:297-301 | an attribute that is no directive changes nothing and logs nothing |
| Rewriter.ValDirective | src/services/ComponentsService.php:303-307 | `val:f` adds `camelCase(f)` with the value to the object in `hx-vals` and keeps its other fields; the new object is exactly that one pair when `hx-vals` was empty, and otherwise the `array_merge` of the old object with the pair; it fails exactly on a non-empty `hx-vals` that is no object |
| Rewriter.ReplaceDirective | src/services/ComponentsService.php:308-312 | `replace` sets `hx-select` and `hx-target` to the value and `hx-swap` to `outerHTML`, and keeps the existing keys in order |
| Rewriter.JsonDirective | src/services/ComponentsService.php:313-316 | `headers` and `vals` go through the JSON merge, so a `javascript:` value throws |
| Rewriter.ReplaceDispatch | src/services/ComponentsService.php:308-312 | `replace` is three assignments in order: `hx-select`, `hx-target`, then `hx-swap` |
| Rewriter.HtmxNameIsPlain | src/services/ComponentsService.php:59 | no name in the htmx list is empty, starts with `val:` or is `replace`, so the earlier branches of the dispatch never catch one |
| Rewriter.PlainDirective | src/services/ComponentsService.php:317-319 | every other htmx name sets `hx-name` to the value |
| Rewriter.OtherDirectiveIgnored | src/services/ComponentsService.php:313 | a name outside the htmx list (`method`, `action`, ...) changes nothing and logs nothing |
| Rewriter.ParseAttributeOnlyHxWrites | src/services/ComponentsService.php:295-326 | one directive writes htmx attributes only, and it can fail only on `val:`, `headers` or `vals` |
| Rewriter.VarsNotices | src/services/ComponentsService.php:322-324 | the only notice ever logged is the `s-vars` deprecation |
| Rewriter.ParseEach | src/services/ComponentsService.php:248-250 | the `foreach` over the attributes as they were when it began, each parsed into the array as it now is, stopping at the first failure, with the notices collected in order |
| Rewriter.ParseAttributes | src/services/ComponentsService.php:244-251 | `_parseAttributes`: the marker step, then the `foreach` over the marked attributes; a marker failure logs nothing |
| Rewriter.ParseEachOnlyHxWrites | src/services/ComponentsService.php:248-250 | the pass over the attributes writes htmx attributes only |
| Rewriter.ParseEachLogs | src/services/ComponentsService.php:248-250 | a pass that succeeds logs one notice per `vars` directive it went through, in order |
| Rewriter.ParseAttributesOnlyHxWrites | src/services/ComponentsService.php:244-251 | `_parseAttributes` removes and reorders nothing, and every directive and plain attribute keeps its value |
| Rewriter.MarkerLogsNothing | src/services/ComponentsService.php:246 | what the marker adds logs nothing |
| Rewriter.ParseAttributesLogs | src/services/ComponentsService.php:244-251 | on success, `_parseAttributes` logs exactly one deprecation per `vars` directive of the element |
| Rewriter.NonDirectivesChangeNothing | src/services/ComponentsService.php:248-250 | a run of attributes that are no directives leaves the map as it is |
| Rewriter.LastDirectiveWins | src/services/ComponentsService.php:248-250 | attributes apply in order: what the `j`-th attribute writes survives the pass when every later attribute keeps the values it wrote |
| Rewriter.KeptToEnd | src/services/ComponentsService.php:248-250 | values that hold stay to the end of the pass when every remaining attribute keeps them |
| Rewriter.ParseAttributeLeaves | src/services/ComponentsService.php:295-326 | an attribute whose directive may not write an htmx attribute (not its own, not one of `s-replace`'s three, not `hx-vals` for `val:`) leaves its value as it was |
| Rewriter.ReplaceLeaves | src/services/ComponentsService.php:308-311 | `s-replace` succeeds and leaves every htmx attribute but `hx-select`, `hx-target` and `hx-swap` as it was |
| Rewriter.PlainKeeps | src/services/ComponentsService.php:295-326 | an attribute whose directive may not write an htmx attribute keeps whatever value it holds |
| Rewriter.ReplaceKeeps | src/services/ComponentsService.php:295-326 | an attribute whose directive may write none of `hx-select`, `hx-target` and `hx-swap` keeps what `s-replace` wrote there |
| Rewriter.PlainDirectiveSets | src/services/ComponentsService.php:317-319 | a directive carried over one to one leaves its htmx attribute holding its value |
| Rewriter.ReplaceDirectiveSets | src/services/ComponentsService.php:308-311 | `s-replace` leaves `hx-select` and `hx-target` holding its value and `hx-swap` holding `outerHTML` |
| Rewriter.LastWriterOfElementWins | src/services/ComponentsService.php:244-251 | on an element, what the `j`-th attribute writes survives `_parseAttributes` when every later attribute, and every attribute that is no directive, keeps it |
| Rewriter.MarkerAddsNoDirective | src/services/ComponentsService.php:246-248 | the marker step keeps every attribute of the element in its place, adds only attributes that are no directives, and leaves the directives' values as they were |
| Rewriter.LastDirectiveOfElementWins | src/services/ComponentsService.php:244-251 | on an element, a directive carried over one to one decides its htmx attribute when no later attribute may write it: in `s-replace="#a" s-target="#b" s-trigger="load"`, `hx-target` is `#b` |
| Rewriter.LastReplaceOfElementWins | src/services/ComponentsService.php:244-251 | on an element, an `s-replace` decides `hx-select`, `hx-target` and `hx-swap` when no later attribute may write any of them: in `s-target="#b" s-replace="#a" s-trigger="load"`, `hx-target` is `#a` |
| OrderedMaps.PutKeepsOrder | src/services/ComponentsService.php:285 | assigning a key keeps the existing keys in front, in order, and changes that one value |
| OrderedMaps.MergeKeys | src/services/ComponentsService.php:137-148 | `array_merge` keeps the first array's order and appends the keys only the second has |
| OrderedMaps.MergeValues | src/services/ComponentsService.php:348 | `array_merge` takes the second array's value wherever it has the key |
| OrderedMaps.MergeWins | src/services/ComponentsService.php:137-148 | entry by entry, the second array wins and the first array's other entries stay |
| OrderedMaps.MergeEmpty | src/services/ComponentsService.php:348 | merging an empty array changes nothing |
| Html.ParseHtml | src/services/ComponentsService.php:202-237 | `parseHtml`: blank markup, after `trim`, comes back unchanged and nothing is logged; otherwise the markup in a document shell, every element rewritten, the body's markup with `&amp;#` repaired to `&#` |
| Html.ParseElements | src/services/ComponentsService.php:220-228 | the element loop: each element's attributes rewritten in document order, stopping at the first failure, with the notices of every rewrite attempted |
| Html.RepairLeavesNoDoubleEncoding | src/services/ComponentsService.php:234 | after the replacement no `&amp;#` is left, because the replacement never creates a new one |
| Html.ParseHtmlRepaired | src/services/ComponentsService.php:230-236 | the markup returned holds no `&amp;#`, so repairing it once more changes nothing |
| Html.ParseElementsRewritesEach | src/services/ComponentsService.php:220-228 | every element is rewritten by `_parseAttributes`, in document order |
| Html.ParseElementsOnlyHxWrites | src/services/ComponentsService.php:220-228 | when each rewrite writes htmx attributes only, so does the element loop, element by element |
| Html.ParseHtmlOnlyHxWrites | src/services/ComponentsService.php:219-228 | `parseHtml` changes each element's attributes by writes to htmx attributes only |
| Creation.VariableKeyInjective | src/services/ComponentsService.php:130 | two variables never share a `$values` key |
| Creation.Render | src/services/ComponentsService.php:107-123 | a component class renders; otherwise the template is rendered, and a missing one throws naming it |
| Creation.DefaultId | src/services/ComponentsService.php:134 | the default id starts with `component-`, so never with a digit |
| Creation.ComponentId | src/services/ComponentsService.php:134 | the caller's id wins when there is one, even an empty one |
| Creation.HashVariables | src/services/ComponentsService.php:129-131 | the `foreach` over the caller's variables: each hash put under `sprig:variables[name]`, stopping at the first variable that fails |
| Creation.ComponentValues | src/services/ComponentsService.php:85-131 | `$values`: the hashed site id, the hashed component or template name under `sprig:component` or `sprig:template`, then the caller's variables hashed |
| Creation.HashVariablesSucceeds | src/services/ComponentsService.php:129-131 | the loop succeeds exactly when every remaining variable hashes; otherwise it throws the error of the first variable that does not |
| Creation.HashVariablesEntries | src/services/ComponentsService.php:129-131 | each variable's key holds its hash once the loop is done |
| Creation.HashVariablesKeepsKey | src/services/ComponentsService.php:129-131 | a key no remaining variable is sent under keeps its value |
| Creation.HashVariablesDomain | src/services/ComponentsService.php:129-131 | the loop adds exactly the remaining variables' keys |
| Creation.ComponentValuesSucceeds | src/services/ComponentsService.php:127-131 | `$values` can be built exactly when no variable the caller passed holds an object |
| Creation.ComponentValuesKeys | src/services/ComponentsService.php:85-131 | `$values` holds `sprig:siteId`, `sprig:component` or `sprig:template`, and one key per variable the caller passed, and nothing else |
| Creation.ComponentValuesEntries | src/services/ComponentsService.php:85-131 | the entries hold the hashed site id, the hashed component or template name, and each caller variable's hash |
| Creation.BaseAttributes | src/services/ComponentsService.php:137-146 | the base array literal: `id`, `class` `sprig-component`, `hx-target` `this`, `hx-include` `#id *`, `hx-trigger` `refresh`, `hx-get` the render URL, `hx-vals` the HTML-encoded `$values` |
| Creation.ComponentAttributes | src/services/ComponentsService.php:134-148 | `array_merge` of the base attributes, under the caller's or the default id, with the caller's attributes |
| Creation.Create | src/services/ComponentsService.php:83-159 | `create`: the before-create event, render, `parseHtml`, `$values`, the merged attributes parsed, `Html::tag`, the after-create handlers; the first exception ends it, keeping the notices logged before it |
| Creation.BaseKeysDistinct | src/services/ComponentsService.php:137-146 | the seven base attribute names are pairwise distinct, under either prefix |
| Creation.CallerAttributesWin | src/services/ComponentsService.php:134-148 | the caller's attributes override the base ones; the base ones the caller does not set stay; the base keys come first |
| Creation.BaseAttributesRefresh | src/services/ComponentsService.php:137-146 | the base attributes carry `$values` HTML-encoded in `hx-vals`, and `#id *` in `hx-include` |
| Creation.ComponentAttributesCarryValues | src/services/ComponentsService.php:134-148 | unless the caller sets them, `hx-vals` decodes to `$values` and `hx-include` points at the component's own inputs |
| Creation.CreateTemplateMissing | src/services/ComponentsService.php:107-123 | when the name, after the before-create handlers, is neither a component nor an existing template, `create` throws naming it and logs nothing |
| Creation.CreateValidatesCallerVariables | src/services/ComponentsService.php:129-131 | `create` succeeds only when no variable the caller passed holds an object |
| Creation.ComponentValuesRejectsObjects | src/services/ComponentsService.php:129-131 | a caller variable holding an object makes `$values` throw the invalid-variable error |
| Creation.CreateRejectsObjects | src/services/ComponentsService.php:125-131 | once the markup is rendered and parsed, such a variable makes `create` throw, after the notices of `parseHtml` |
| Service.Deprecator.constructor | src/services/ComponentsService.php:323 | the log starts empty |
| Service.Deprecator.Log | src/services/ComponentsService.php:323 | a call appends one notice to the log |
| Service.ComponentsService.constructor | src/services/ComponentsService.php:66-73 | `init`: the prefix is `data-` exactly when `hxDataPrefix` is on, and `''` otherwise |
| Service.ComponentsService.SprigAttributeName | src/services/ComponentsService.php:360-369 | the early-return loop over the prefixes returns the name defined above |
| Service.ComponentsService.SprigAttributeValue | src/services/ComponentsService.php:378-387 | the early-return loop returns the value defined above |
| Service.ComponentsService.ValidateVariableType | src/services/ComponentsService.php:408-439 | the recursion and its loop over an array's values agree with the validation defined above |
| Service.ComponentsService.HashVariable | src/services/ComponentsService.php:397-406 | validate, encode, then hash, as defined above |
| Service.ComponentsService.MergeJsonAttributes | src/services/ComponentsService.php:335-352 | the in-place merge agrees with the merge defined above |
| Service.ComponentsService.ParseSprigAttribute | src/services/ComponentsService.php:258-286 | the in-place marker expansion agrees with the one defined above |
| Service.ComponentsService.ParseAttribute | src/services/ComponentsService.php:295-326 | the dispatch agrees with the one defined above, and the log grows by one notice exactly for a `vars` directive that succeeds |
| Service.ComponentsService.ParseAttributes | src/services/ComponentsService.php:244-251 | the marker, then the loop over the keys present when it starts; result and log agree with the definition |
| Service.ComponentsService.ParseHtml | src/services/ComponentsService.php:202-237 | blank shortcut, document shell, element loop and repair; result and log agree with the definition |
| Service.ComponentsService.ParseElements | src/services/ComponentsService.php:220-228 | the element loop; result and log agree with the definition |
| Service.ComponentsService.Create | src/services/ComponentsService.php:83-159 | event, render, parse, `$values`, merged attributes, parse, tag, after-event; result and log agree with the definition |
| Service.ComponentsService.ComponentValues | src/services/ComponentsService.php:85-131 | the `$values` loop agrees with the definition |

## Left out

- `createObject` and the resolution of component classes are not modelled. They are
  reflection and dependency injection. They become `renderComponent`, which either renders
  a component or says there is none.
- Template lookup and rendering, and the rendering of error templates by `_getError`, are
  not modelled. An invalid variable is an error value carrying its template kind, the
  variable's name and `isArray`.
- The HTML5 document library is not modelled: parsing, the element walk, `setAttribute`
  and `innerHTML`. The model takes a document's elements as a list of attribute maps, and
  the body's markup as a function of those maps.
- The event bus is not modelled. The before-create handlers are a function on the event.
  The after-create handlers are a function on the markup, the identity when there are
  none, so `hasEventHandlers` is not modelled. `Template::raw` is not modelled.
- The cryptography of `hashData`, the CSRF token source, `randomString`, `actionUrl`,
  `Html::tag`, `toCamelCase` and the JSON codec are left uninterpreted.
- `init` reads the plugin settings. The model's constructor takes `hxDataPrefix` as a
  parameter instead.
- Rewriter.MergeJsonAttributes: PHP's `array_merge` would renumber two JSON lists or objects with
  integer keys. A number, string or boolean would make PHP throw a TypeError. The model
  merges only two JSON objects, and refuses every other pair with `NotMergeable`.
- Variables.Variable: floats are kept as the text PHP prints for them. `Json::encode` of an
  array is a collaborator.
- `in_array` in `_parseAttribute` compares loosely. A directive name is always a string,
  and no name in the list is numeric, so an exact membership test gives the same answers.
- Creation.ComponentId: the `??` in `create` falls back to the default id also when the
  caller's `id` is `null`. Attribute values here are always strings, so that case does not
  arise.
- Concurrency and the state of other requests are out of scope. Each call runs alone
  against its own `Env`.
