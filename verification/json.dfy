/** A parsed JSON document, as `json.load` hands it to the converter.

    Numbers are an opaque payload: the converter never computes with them,
    it only copies them into cells. Objects are ordered association lists,
    so the member order of the Python `dict` is kept. */
module JsonValue {

  datatype Json =
    | JNull
    | JBool(b: bool)
    | JNum(n: int)
    | JStr(s: string)
    | JArr(elems: seq<Json>)
    | JObj(members: seq<(string, Json)>)
  {
    /** Neither an object nor an array: the flattening stops here. */
    predicate IsScalar()
    {
      !JArr? && !JObj?
    }
  }
}
