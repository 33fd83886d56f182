/** The parsed YAML header of a content file, reduced to what the generator
    reads from it: for each key, whether its value is a string scalar. */
module Metadata {
  import opened Results
  import opened Text

  /** A YAML value as seen through `as_str()`: a string, or anything else
      (a number, a boolean, a list, ...), which reads as absent. */
  datatype Scalar = Str(text: String) | NonString

  /** A YAML mapping. A document that is not a mapping indexes like an empty
      one, so it is represented by the empty map. */
  type Document = map<String, Scalar>

  /** `doc[key].as_str()`: present only when the key holds a string. */
  function AsStr(doc: Document, key: String): (r: Option<String>)
    ensures r.Some? <==> key in doc && doc[key].Str?
    ensures r.Some? ==> doc[key] == Str(r.value)
  {
    if key in doc && doc[key].Str? then Some(doc[key].text) else None
  }
}
