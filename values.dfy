/** Run-time-typed values as the template helpers see them through Go's
    reflection, replaced by one closed tagged datatype, together with the
    indirection that strips pointer and interface layers. */
module Values {

  datatype Option<T> = None | Some(value: T)

  datatype Result<T, E> = Ok(value: T) | Err(error: E)

  /** A value handed to a helper by the template engine.
      Nil is the invalid (zero) reflect.Value that an untyped nil becomes;
      NilPtr and NilIface are typed nils, valid values whose IsNil holds.
      Seq stands for both arrays and slices. Map lists its key/value pairs
      in one iteration order, which Go leaves unspecified. Struct is any
      value of struct kind, UnsafePointer a kind that text/template's truth
      rule has no case for.
      Some terms have no Go counterpart and never occur as inputs: a Ptr
      whose target is Nil (a pointer always points at a valid value), an
      Iface holding Nil or another Iface (an interface holding nil is
      NilIface, and an interface never holds an interface directly), and an
      Iface at the top of a helper's argument (reflect.ValueOf never yields
      interface kind). The lemmas hold for these terms too. */
  datatype Val =
    | Nil
    | Str(s: string)
    | Int(n: int)
    | Uint(u: nat)
    | Real(x: real)
    | Bool(b: bool)
    | Seq(elems: seq<Val>)
    | Map(entries: seq<(Val, Val)>)
    | Ptr(target: Val)
    | NilPtr
    | Iface(inner: Val)
    | NilIface
    | Struct
    | UnsafePointer

  /** A value with no pointer or interface layer left on top. */
  predicate Concrete(v: Val) {
    !(v.Ptr? || v.NilPtr? || v.Iface? || v.NilIface?)
  }

  /** The helper indirectInterface: follows pointer and interface layers
      down to a concrete value; a nil at any depth ends in the invalid value. */
  function IndirectInterface(v: Val): (r: Val)
    ensures Concrete(r)
    ensures Concrete(v) ==> r == v
    ensures (v.NilPtr? || v.NilIface?) ==> r == Nil
  {
    match v
    case Ptr(t) => IndirectInterface(t)
    case Iface(t) => IndirectInterface(t)
    case NilPtr => Nil
    case NilIface => Nil
    case _ => v
  }

  /** Resolving is idempotent: a resolved value resolves to itself. */
  lemma IndirectInterfaceIdempotent(v: Val)
    ensures IndirectInterface(IndirectInterface(v)) == IndirectInterface(v)
  {
  }

  /** Only the terminal of a chain matters, not its depth. */
  lemma {:induction false} IndirectInterfaceSeesThroughLayers(v: Val, layers: seq<bool>)
    ensures IndirectInterface(Wrap(v, layers)) == IndirectInterface(v)
    decreases |layers|
  {
    if layers != [] {
      IndirectInterfaceSeesThroughLayers(v, layers[1..]);
    }
  }

  /** v under one layer per entry of layers: a pointer for true, an
      interface for false, the outermost layer first. */
  function Wrap(v: Val, layers: seq<bool>): Val
    decreases |layers|
  {
    if layers == [] then v
    else if layers[0] then Ptr(Wrap(v, layers[1..]))
    else Iface(Wrap(v, layers[1..]))
  }

  /** The outcome of the helper eq: equal, not equal, or an error. */
  datatype Cmp = Same | Differ | Incomparable

  type EqFn = (Val, Val) -> Cmp

  /** What the model assumes of eq where a statement needs it: values of the
      same kind, string or signed integer, compare by equality without error. */
  ghost predicate EqAgreesOnScalars(eq: EqFn) {
    (forall a: string, b: string :: eq(Str(a), Str(b)) == if a == b then Same else Differ) &&
    (forall m: int, n: int :: eq(Int(m), Int(n)) == if m == n then Same else Differ)
  }
}
