/**
 * The JSON-like tree that unstructured Kubernetes objects are made of:
 * `map[string]interface{}` and `[]interface{}` nested to any depth, with
 * null, booleans, numbers and strings at the leaves. Numbers are integers
 * here (floating point is not part of this model).
 */
module Json {

  datatype Value =
    | JNull
    | JBool(b: bool)
    | JNum(n: int)
    | JStr(s: string)
    | JObj(fields: map<string, Value>)
    | JArr(items: seq<Value>)
}
