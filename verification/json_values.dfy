/** JSON documents, as craft\helpers\Json decodes them into PHP values and encodes them back. */
module JsonValues {

  import opened Results
  import opened OrderedMaps

  /** A decoded JSON value; an object is an ordered map with string keys, and a number is
      kept as its literal text. */
  datatype Json =
    | JNull
    | JBool(b: bool)
    | JNumber(literal: string)
    | JString(s: string)
    | JArray(items: seq<Json>)
    | JObject(fields: OrderedMap<Json>)

  /** `Json::decode($text)`, which fails on text that is not JSON, and `Json::htmlEncode($v)`,
      which also escapes the characters that would end an HTML attribute. */
  datatype Codec = Codec(decode: string -> Option<Json>, htmlEncode: Json -> string)

  /** What the model asks of the codec: decoding what it encoded gives the value back. */
  ghost predicate RoundTrips(codec: Codec)
  {
    forall j :: codec.decode(codec.htmlEncode(j)) == Some(j)
  }

  /** `text` decodes to a JSON object. */
  predicate DecodesToObject(codec: Codec, text: string)
  {
    codec.decode(text).Some? && codec.decode(text).value.JObject?
  }

  /** The object `text` decodes to. */
  function DecodedObject(codec: Codec, text: string): OrderedMap<Json>
    requires DecodesToObject(codec, text)
  {
    codec.decode(text).value.fields
  }
}
