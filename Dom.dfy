/** Values the page controller reads from the document, with the document tree abstracted away. */
module Dom {

  /** The result of a lookup that may find nothing. */
  datatype Option<T> = None | Some(value: T)

  /** What `getAttribute` returns: the attribute's text, or `null` when the attribute is absent. */
  datatype Attr = Str(s: string) | Null

  /** Elements are compared by identity only, so a handle is enough. */
  type Element = nat

  /** JavaScript's `prefix + v` for an attribute value `v`: `null` is converted to the text "null". */
  function Concat(prefix: string, v: Attr): (r: string)
    ensures |r| >= |prefix| && r[..|prefix|] == prefix
  {
    match v
    case Str(s) => prefix + s
    case Null => prefix + "null"
  }

  /** `'#' + v` is the bare fragment "#" exactly when `v` is the empty string. */
  lemma BareHash(v: Attr)
    ensures Concat("#", v) == "#" <==> v == Str("")
  {
    if v == Str("") {
      assert Concat("#", v) == "#" + "";
    }
  }
}
