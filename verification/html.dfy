/** The string steps of `parseHtml`: the blank-input shortcut, the document shell, the
    per-element rewrite and the repair of double-encoded entities. */
module Html {

  import opened Results
  import opened OrderedMaps
  import opened Php
  import opened Errors
  import opened Directives
  import opened Collaborators
  import opened Rewriter

  /** The text the HTML5 serializer leaves for a numeric entity it encoded once more. */
  const DoubleEncoded := "&amp;#"

  /** What `parseHtml` puts in its place. */
  const EntityStart := "&#"

  /** The document the markup is parsed as, its body wrapping the markup so that script
      elements come through as they are. */
  function DocumentShell(html: string): (doc: string)
    ensures |doc| > |html|
  {
    "<!doctype html><html lang=\"\"><body>" + html + "</body></html>"
  }

  /** The element loop of `parseHtml` from the `i`-th element on: each element's attributes
      are rewritten (by `_parseAttributes`) and written back; `done` holds the elements
      already rewritten. */
  function ParseElements(rewrite: Attributes -> Logged<Attributes>, elements: seq<Attributes>, i: nat,
                         done: seq<Attributes>, logged: seq<Deprecation>): Logged<seq<Attributes>>
    requires i <= |elements|
    decreases |elements| - i
  {
    if i == |elements| then Logged(Ok(done), logged)
    else
      var parsed := rewrite(elements[i]);
      match parsed.outcome
      case Err(e) => Logged(Err(e), logged + parsed.logged)
      case Ok(a) => ParseElements(rewrite, elements, i + 1, done + [a], logged + parsed.logged)
  }

  /** One turn of the element loop, for a rewrite that gave `parsed`. */
  lemma ParseElementsStep(rewrite: Attributes -> Logged<Attributes>, elements: seq<Attributes>, i: nat,
                          done: seq<Attributes>, logged: seq<Deprecation>, parsed: Logged<Attributes>)
    requires i < |elements| && rewrite(elements[i]) == parsed
    ensures parsed.outcome.Err? ==>
              ParseElements(rewrite, elements, i, done, logged) == Logged(Err(parsed.outcome.error), logged + parsed.logged)
    ensures parsed.outcome.Ok? ==>
              ParseElements(rewrite, elements, i, done, logged)
              == ParseElements(rewrite, elements, i + 1, done + [parsed.outcome.value], logged + parsed.logged)
  {
  }

  /** `_parseAttributes` under the service's prefix and collaborators. */
  function ElementRewrite(hxPrefix: string, env: Env): Attributes -> Logged<Attributes>
  {
    a => ParseAttributes(hxPrefix, env, a)
  }

  /** `parseHtml($html)` */
  function ParseHtml(hxPrefix: string, env: Env, html: string): (r: Logged<string>)
    ensures IsEmpty(Trim(html)) ==> r == Logged(Ok(html), [])
  {
    if IsEmpty(Trim(html)) then Logged(Ok(html), [])
    else
      var doc := DocumentShell(html);
      var parsed := ParseElements(ElementRewrite(hxPrefix, env), env.dom.elements(doc), 0, [], []);
      match parsed.outcome
      case Err(e) => Logged(Err(e), parsed.logged)
      case Ok(elements) => Logged(Ok(ReplaceAll(env.dom.bodyInnerHtml(doc, elements), DoubleEncoded, EntityStart)), parsed.logged)
  }

  /** Text without `&` at the head of the repaired text was at the head of the original. */
  lemma {:induction false} LeadingTextSurvives(t: string, u: string)
    requires '&' !in u
    ensures StartsWith(ReplaceAll(t, DoubleEncoded, EntityStart), u) ==> StartsWith(t, u)
    decreases |t|
  {
    var out := ReplaceAll(t, DoubleEncoded, EntityStart);
    if u != [] && |t| >= |DoubleEncoded| {
      if t[..|DoubleEncoded|] == DoubleEncoded {
        assert out[0] == '&' && u[0] != '&';
      } else {
        var rest := ReplaceAll(t[1..], DoubleEncoded, EntityStart);
        assert out == [t[0]] + rest;
        LeadingTextSurvives(t[1..], u[1..]);
        if StartsWith(out, u) {
          assert rest[..|u| - 1] == out[..|u|][1..];
          assert t[..|u|] == [t[0]] + t[1..][..|u| - 1];
        }
      }
    }
  }

  /** No double-encoded entity is left once the repair has run: `str_replace` never
      creates a new occurrence, since the replacement starts with `&#`. */
  lemma {:induction false} RepairLeavesNoDoubleEncoding(s: string)
    ensures !Contains(ReplaceAll(s, DoubleEncoded, EntityStart), DoubleEncoded)
    decreases |s|
  {
    var out := ReplaceAll(s, DoubleEncoded, EntityStart);
    if |s| < |DoubleEncoded| {
      forall i | 0 <= i <= |out| ensures !StartsWith(out[i..], DoubleEncoded) { }
    } else if s[..|DoubleEncoded|] == DoubleEncoded {
      var rest := ReplaceAll(s[|DoubleEncoded|..], DoubleEncoded, EntityStart);
      RepairLeavesNoDoubleEncoding(s[|DoubleEncoded|..]);
      assert out == EntityStart + rest;
      forall i | 0 <= i <= |out| ensures !StartsWith(out[i..], DoubleEncoded) {
        if i >= 2 {
          assert out[i..] == rest[i - 2..];
        } else if |out[i..]| >= |DoubleEncoded| {
          assert out[i..][1 - i] == '#';
        }
      }
    } else {
      var rest := ReplaceAll(s[1..], DoubleEncoded, EntityStart);
      RepairLeavesNoDoubleEncoding(s[1..]);
      assert out == [s[0]] + rest;
      forall i | 0 <= i <= |out| ensures !StartsWith(out[i..], DoubleEncoded) {
        if i >= 1 {
          assert out[i..] == rest[i - 1..];
        } else {
          assert out[i..] == out;
          HeadNotDoubleEncoded(s);
        }
      }
    }
  }

  /** Text that does not start with a double-encoded entity does not start with one once
      its tail is repaired. */
  lemma HeadNotDoubleEncoded(s: string)
    requires |s| >= |DoubleEncoded| && s[..|DoubleEncoded|] != DoubleEncoded
    ensures !StartsWith([s[0]] + ReplaceAll(s[1..], DoubleEncoded, EntityStart), DoubleEncoded)
  {
    var rest := ReplaceAll(s[1..], DoubleEncoded, EntityStart);
    var out := [s[0]] + rest;
    LeadingTextSurvives(s[1..], "amp;#");
    assert DoubleEncoded == ['&'] + "amp;#" && DoubleEncoded[0] == '&' && DoubleEncoded[1..] == "amp;#";
    assert |rest| >= 5 ==> out[..6][0] == s[0] && out[..6][1..] == rest[..5];
    assert s[..6] == [s[0]] + s[1..][..5];
  }

  /** The markup `parseHtml` returns for non-blank input holds no double-encoded entity,
      so repairing it once more changes nothing. */
  lemma ParseHtmlRepaired(hxPrefix: string, env: Env, html: string)
    requires !IsEmpty(Trim(html))
    ensures var r := ParseHtml(hxPrefix, env, html).outcome;
            r.Ok? ==> !Contains(r.value, DoubleEncoded)
                      && ReplaceAll(r.value, DoubleEncoded, EntityStart) == r.value
  {
    var r := ParseHtml(hxPrefix, env, html).outcome;
    if r.Ok? {
      var doc := DocumentShell(html);
      var elements := ParseElements(ElementRewrite(hxPrefix, env), env.dom.elements(doc), 0, [], []).outcome.value;
      RepairLeavesNoDoubleEncoding(env.dom.bodyInnerHtml(doc, elements));
      ReplaceAllAbsent(r.value, DoubleEncoded, EntityStart);
    }
  }

  /** The element loop rewrites every element, in document order. */
  lemma {:induction false} ParseElementsRewritesEach(rewrite: Attributes -> Logged<Attributes>, elements: seq<Attributes>,
                                                     i: nat, done: seq<Attributes>, logged: seq<Deprecation>)
    requires i <= |elements|
    ensures var r := ParseElements(rewrite, elements, i, done, logged);
            r.outcome.Ok? ==>
              && |r.outcome.value| == |done| + |elements| - i
              && r.outcome.value[..|done|] == done
              && forall k :: i <= k < |elements| ==> rewrite(elements[k]).outcome == Ok(r.outcome.value[|done| + k - i])
    decreases |elements| - i
  {
    var r := ParseElements(rewrite, elements, i, done, logged);
    if i < |elements| && r.outcome.Ok? {
      var parsed := rewrite(elements[i]);
      var a := parsed.outcome.value;
      ParseElementsRewritesEach(rewrite, elements, i + 1, done + [a], logged + parsed.logged);
      var out := r.outcome.value;
      assert out[..|done|] == out[..|done| + 1][..|done|];
      assert out[|done|] == out[..|done| + 1][|done|];
    }
  }

  /** An element rewrite that writes htmx attributes only. */
  ghost predicate RewritesHxOnly(hxPrefix: string, rewrite: Attributes -> Logged<Attributes>)
  {
    forall a :: rewrite(a).outcome.Ok? ==> OnlyHxWrites(hxPrefix, a, rewrite(a).outcome.value)
  }

  lemma ElementRewriteWritesHxOnly(hxPrefix: string, env: Env)
    requires ValidHxPrefix(hxPrefix)
    ensures RewritesHxOnly(hxPrefix, ElementRewrite(hxPrefix, env))
  {
    var rewrite := ElementRewrite(hxPrefix, env);
    forall a | rewrite(a).outcome.Ok? ensures OnlyHxWrites(hxPrefix, a, rewrite(a).outcome.value) {
      ParseAttributesOnlyHxWrites(hxPrefix, env, a);
    }
  }

  /** An element loop whose rewrite writes htmx attributes only does so for every element. */
  lemma ParseElementsOnlyHxWrites(hxPrefix: string, rewrite: Attributes -> Logged<Attributes>, elements: seq<Attributes>)
    requires RewritesHxOnly(hxPrefix, rewrite)
    ensures var r := ParseElements(rewrite, elements, 0, [], []).outcome;
            r.Ok? ==> |r.value| == |elements|
                      && forall k :: 0 <= k < |elements| ==> OnlyHxWrites(hxPrefix, elements[k], r.value[k])
  {
    var r := ParseElements(rewrite, elements, 0, [], []).outcome;
    if r.Ok? {
      ParseElementsRewritesEach(rewrite, elements, 0, [], []);
      forall k | 0 <= k < |elements| ensures OnlyHxWrites(hxPrefix, elements[k], r.value[k]) {
        assert rewrite(elements[k]).outcome == Ok(r.value[k]);
      }
    }
  }

  /** `parseHtml` changes the attributes of each element by writes to htmx attributes only:
      no attribute is removed, and directives and plain attributes keep their values. */
  lemma ParseHtmlOnlyHxWrites(hxPrefix: string, env: Env, html: string)
    requires ValidHxPrefix(hxPrefix)
    ensures var before := env.dom.elements(DocumentShell(html));
            var r := ParseElements(ElementRewrite(hxPrefix, env), before, 0, [], []).outcome;
            r.Ok? ==> |r.value| == |before|
                      && forall k :: 0 <= k < |before| ==> OnlyHxWrites(hxPrefix, before[k], r.value[k])
  {
    ElementRewriteWritesHxOnly(hxPrefix, env);
    ParseElementsOnlyHxWrites(hxPrefix, ElementRewrite(hxPrefix, env), env.dom.elements(DocumentShell(html)));
  }
}
