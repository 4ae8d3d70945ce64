/** Component variables: checking that they can travel through the browser, and hashing them. */
module Variables {

  import opened Results
  import opened Errors
  import opened Php

  /** A PHP array key. */
  datatype ArrayKey = IntKey(i: int) | StringKey(s: string)

  /** A PHP value passed as a component variable. An object is described by what it is an
      instance of: an element (ElementInterface, which every element also is a Model), a
      Model, or something else. */
  datatype Variable =
    | VNull
    | VBool(b: bool)
    | VInt(i: int)
    | VFloat(text: string)
    | VString(s: string)
    | VArray(entries: seq<ArrayEntry>)
    | VObject(isElement: bool, isModel: bool)

  datatype ArrayEntry = ArrayEntry(key: ArrayKey, value: Variable)

  /** The reference definition: a variable may be sent to the browser when it holds no object
      at any depth. */
  ghost predicate Storable(v: Variable)
    decreases v
  {
    match v
    case VObject(_, _) => false
    case VArray(entries) =>
      forall i :: 0 <= i < |entries| ==> (assert entries[i] in entries; Storable(entries[i].value))
    case _ => true
  }

  /** The error template an object is reported with: element before model before object. */
  function KindOf(isElement: bool, isModel: bool): VariableKind
  {
    if isElement then ElementKind else if isModel then ModelKind else ObjectKind
  }

  /** `_validateVariableType($name, $value, $isArray)`: throws for the first object met,
      depth first, with the top-level name and whether it sat inside an array. */
  function ValidateVariableType(name: string, value: Variable, isArray: bool): (r: Outcome<Error>)
    ensures r.Fail? ==> r.error.InvalidVariable? && r.error.name == name
    ensures r.Fail? ==> r.error.isArray == (isArray || value.VArray?)
    ensures value.VObject? ==> r == Fail(InvalidVariable(KindOf(value.isElement, value.isModel), name, isArray))
    decreases value, 1, 0
  {
    match value
    case VObject(isElement, isModel) => Fail(InvalidVariable(KindOf(isElement, isModel), name, isArray))
    case VArray(entries) => ValidateEntries(name, entries, 0)
    case _ => Pass
  }

  /** The `foreach` over an array's values from position `i` on, each validated as nested. */
  function ValidateEntries(name: string, entries: seq<ArrayEntry>, i: nat): (r: Outcome<Error>)
    requires i <= |entries|
    ensures r.Fail? ==> r.error.InvalidVariable? && r.error.name == name && r.error.isArray
    decreases VArray(entries), 0, |entries| - i
  {
    if i == |entries| then Pass
    else
      assert entries[i] in entries;
      match ValidateVariableType(name, entries[i].value, true)
      case Fail(e) => Fail(e)
      case Pass => ValidateEntries(name, entries, i + 1)
  }

  /** Validation accepts exactly the storable variables: every scalar and null, and an array
      only when all its values are accepted, so one bad leaf fails the whole variable. */
  lemma {:induction false} ValidateAcceptsStorable(name: string, value: Variable, isArray: bool)
    ensures ValidateVariableType(name, value, isArray).Pass? <==> Storable(value)
    decreases value, 1, 0
  {
    if value.VArray? {
      ValidateEntriesAcceptsStorable(name, value.entries, 0);
    }
  }

  lemma {:induction false} ValidateEntriesAcceptsStorable(name: string, entries: seq<ArrayEntry>, i: nat)
    requires i <= |entries|
    ensures ValidateEntries(name, entries, i).Pass? <==>
      forall j :: i <= j < |entries| ==> Storable(entries[j].value)
    decreases VArray(entries), 0, |entries| - i
  {
    if i < |entries| {
      assert entries[i] in entries;
      ValidateAcceptsStorable(name, entries[i].value, true);
      ValidateEntriesAcceptsStorable(name, entries, i + 1);
    }
  }

  /** The string PHP converts a scalar or null to when it is passed where a string is expected. */
  function ScalarString(v: Variable): string
    requires !v.VArray? && !v.VObject?
  {
    match v
    case VNull => ""
    case VBool(b) => if b then "1" else ""
    case VInt(i) => IntString(i)
    case VFloat(text) => text
    case VString(s) => s
  }

  /** `_hashVariable($name, $value)`: validates first, JSON-encodes an array, and hashes.
      `hashData` and `jsonEncode` stand for the security service and `Json::encode`. */
  function HashVariable(hashData: string -> string, jsonEncode: Variable -> string,
                        name: string, value: Variable): (r: Result<string, Error>)
    ensures r.Ok? <==> Storable(value)
    ensures r.Err? ==> r.error.InvalidVariable? && r.error.name == name && r.error.isArray == value.VArray?
    ensures r.Ok? && value.VArray? ==> r.value == hashData(jsonEncode(value))
    ensures r.Ok? && !value.VArray? ==> !value.VObject? && r.value == hashData(ScalarString(value))
  {
    ValidateAcceptsStorable(name, value, false);
    match ValidateVariableType(name, value, false)
    case Fail(e) => Err(e)
    case Pass => Ok(hashData(if value.VArray? then jsonEncode(value) else ScalarString(value)))
  }
}
