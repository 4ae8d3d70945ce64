/** The services the component service calls but that are not part of this model: Craft's
    security, URL, string, JSON, view and event services and the HTML5 document library. Each
    is a field, so every lemma holds whatever they do unless it states a requirement on them. */
module Collaborators {

  import opened Results
  import opened OrderedMaps
  import opened JsonValues
  import opened Variables
  import opened Directives

  /** The HTML5 document library: the attributes of every element of a parsed document, in
      document order, and the inner HTML of its body once each element's attributes are the
      given ones. */
  datatype Dom = Dom(elements: string -> seq<Attributes>, bodyInnerHtml: (string, seq<Attributes>) -> string)

  /** What the `beforeCreateComponent` handlers see and may change. */
  datatype ComponentEvent = ComponentEvent(value: string, variables: OrderedMap<Variable>, attributes: Attributes)

  datatype Env = Env(
    /** Json::decode and Json::htmlEncode */
    json: Codec,
    /** the security service's hashData */
    hashData: string -> string,
    /** UrlHelper::actionUrl(route, params) */
    actionUrl: (string, OrderedMap<string>) -> string,
    /** the request's CSRF token */
    csrfToken: string,
    /** StringHelper::toCamelCase */
    toCamelCase: string -> string,
    /** Json::encode of an array variable */
    jsonEncode: Variable -> string,
    dom: Dom,
    /** the current site's id */
    siteId: int,
    /** the variables of the current Sprig request */
    requestVariables: OrderedMap<Variable>,
    /** the `beforeCreateComponent` handlers */
    beforeCreate: ComponentEvent -> ComponentEvent,
    /** the `afterCreateComponent` handlers, given the markup (the identity when none) */
    afterCreate: string -> string,
    /** createObject followed by render, when a component class of that name exists */
    renderComponent: (string, OrderedMap<Variable>) -> Option<string>,
    /** the view's doesTemplateExist and renderTemplate */
    templateExists: string -> bool,
    renderTemplate: (string, OrderedMap<Variable>) -> string,
    /** StringHelper::randomString(6) */
    randomString: string,
    /** Html::tag(name, content, attributes) */
    tag: (string, string, Attributes) -> string)
}
