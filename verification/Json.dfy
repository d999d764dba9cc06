/** JSON values as the repository handles them after decoding. */
module Json {

  /** `Number` stands for every number that is not an integer: its text, and whether it is finite. Python reads NaN, Infinity and
      literals beyond its floats as numbers that are not, and writes them in a form that is not JSON. */
  datatype Json =
    | Null
    | Bool(truth: bool)
    | Int(value: int)
    | Number(text: string, finite: bool)
    | Str(chars: string)
    | Arr(items: seq<Json>)
    | Obj(members: map<string, Json>)

  /** No number anywhere in the value is NaN or infinite. */
  predicate AllFinite(value: Json) {
    match value
    case Number(_, finite) => finite
    case Arr(items) => forall i :: 0 <= i < |items| ==> AllFinite(items[i])
    case Obj(members) => forall key :: key in members ==> AllFinite(members[key])
    case _ => true
  }
}
