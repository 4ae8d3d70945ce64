/** The exceptions and the deprecation notices of the component service. */
module Errors {

  import opened Results

  /** The error templates `variable-element`, `variable-model` and `variable-object`. */
  datatype VariableKind = ElementKind | ModelKind | ObjectKind

  datatype Error =
      /** InvalidVariableException, rendered from the template of `kind`. */
    | InvalidVariable(kind: VariableKind, name: string, isArray: bool)
      /** BadRequestHttpException: a JSON directive value with a `javascript:` prefix. */
    | UnsafeJavascript(attribute: string)
      /** The exception Json::decode throws on text that is not JSON. */
    | MalformedJson(text: string)
      /** The TypeError array_merge throws when an operand is not an array. */
    | NotMergeable(attribute: string)
      /** BadRequestHttpException: neither a component nor a template has this name. */
    | TemplateNotFound(value: string)

  /** One call of the deprecator's `log(key, message)`. */
  datatype Deprecation = Deprecation(key: string, message: string)

  /** The outcome of an operation together with the deprecation notices it logged before
      returning or throwing. */
  datatype Logged<+T> = Logged(outcome: Result<T, Error>, logged: seq<Deprecation>)
}
