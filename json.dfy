/** JavaScript values as they occur in the design tool's layer meta-data, and the
    shape of an annotation node as the TypeScript declaration of `AnnotationNode`
    describes it. */
module Json {

  datatype Option<T> = None | Some(value: T)

  /** A JavaScript value. JSON numbers are modelled as `real`; `Undefined` is the
      value of a property that was assigned `undefined` (or read while missing). */
  datatype Value =
    | Undefined
    | Null
    | Bool(b: bool)
    | Num(n: real)
    | Str(s: string)
    | Arr(items: seq<Value>)
    | Obj(fields: map<string, Value>)

  /** A plain object: its own enumerable properties and their values. */
  type Record = map<string, Value>

  /** Property access `r[key]`: a missing property reads as `undefined`. */
  function Get(r: Record, key: string): Value
  {
    if key in r then r[key] else Undefined
  }

  /** `Array.isArray(v) && v.length === 0` */
  predicate IsEmptyArray(v: Value)
  {
    v.Arr? && |v.items| == 0
  }

  /** `v` has the declared type `AnnotationNode` as far as the code relies on it:
      an object whose optional `children` is `undefined`, `null` or an array of
      such nodes. The other fields may hold anything. */
  predicate IsNode(v: Value)
    decreases v
  {
    && v.Obj?
    && ("children" in v.fields ==>
          || v.fields["children"].Undefined?
          || v.fields["children"].Null?
          || (&& v.fields["children"].Arr?
              && forall i :: 0 <= i < |v.fields["children"].items| ==> IsNode(v.fields["children"].items[i])))
  }
}
