/** Values as a parser of JSON or YAML hands them over. */
module JsonValues {
  /** A JSON value. `NonFinite` stands for NaN and the infinities, which an author can write in YAML;
      `Undefined` for the result of reading what is not there. */
  datatype Value =
    | Undefined
    | Null
    | Bool(flag: bool)
    | Number(number: real)
    | NonFinite
    | Str(text: string)
    | List(items: seq<Value>)
    | Record(fields: map<string, Value>)
}
