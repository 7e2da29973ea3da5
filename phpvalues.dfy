/** The PHP values the formatter receives, and the code outside the model it
    calls into (user `__toString` methods and `json_encode`). */
module PhpValues {
  import opened Wrappers

  /** An object: its class name and whether its class implements `Stringable`. */
  datatype ObjRef = ObjRef(id: nat, className: string, stringable: bool)

  datatype ArrayKey = IntKey(i: int) | StrKey(s: string)

  /** A context value. `Resource` stands for the values that are neither
      null, scalar, array nor object. */
  datatype Value =
    | Null
    | Bool(b: bool)
    | Int(i: int)
    | Str(s: string)
    | Array(entries: seq<(ArrayKey, Value)>)
    | Object(obj: ObjRef)
    | Resource

  /** The message of a log call: a string or a `Stringable` object. */
  datatype Message = Text(text: string) | StringableMessage(obj: ObjRef)

  /** The context of a log call: a PHP array from names to values, in insertion order. */
  type Context = seq<(string, Value)>

  /** Foreign code: `$obj->__toString()` of user classes, and `json_encode`
      with `JSON_UNESCAPED_UNICODE`, which yields nothing when the value cannot
      be encoded (PHP then throws, under `JSON_THROW_ON_ERROR`). */
  datatype Host = Host(toString: ObjRef -> string, jsonEncode: seq<(ArrayKey, Value)> -> Option<string>)
}
