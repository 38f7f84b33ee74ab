/** JSON values. Object key order carries no meaning in anything modelled here. */
module Json {
  import opened Options

  datatype J =
    | JNull
    | JBool(b: bool)
    | JNum(n: real)
    | JStr(s: string)
    | JArr(items: seq<J>)
    | JObj(fields: map<string, J>)

  /** Reading a property: `undefined` when it is not there. */
  function FieldOf(fields: map<string, J>, k: string): Option<J> {
    if k in fields then Some(fields[k]) else None
  }
}
