/** JavaScript values as the store and the list stores see them.
    Objects have identity: a value of an object is a reference `Ref(o)` into a
    `Heap` that maps each object to its own enumerable fields. */
module Js {

  type ObjId = nat
  type FnId = nat

  /** A JavaScript value. Numbers are modelled as integers. A function is
      identified by a `FnId`; what calling it does is given separately. */
  datatype Val =
    | Undef
    | Null
    | Bool(b: bool)
    | Num(n: int)
    | Str(s: string)
    | Fn(f: FnId)
    | Ref(o: ObjId)

  /** A value that is not a function. */
  type Plain = v: Val | !v.Fn? witness Undef

  type Obj = map<string, Val>
  type Heap = map<ObjId, Obj>

  datatype Option<T> = None | Some(value: T)

  /** How a call ends: returning a value, or with a thrown error (for
      instance the TypeError of assigning a field of a number in strict
      mode, or of reading a field of `undefined`). */
  datatype Completion<T> = Returned(value: T) | Threw(error: string)

  const TypeError := "TypeError"

  /** JavaScript truthiness: `undefined`, `null`, `false`, `0` and `""` are falsy. */
  predicate Truthy(v: Val)
  {
    match v
    case Undef => false
    case Null => false
    case Bool(b) => b
    case Num(n) => n != 0
    case Str(s) => s != ""
    case Fn(_) => true
    case Ref(_) => true
  }

  /** `!!v && typeof v === 'object'`. */
  predicate IsObject(v: Val)
  {
    v.Ref?
  }

  /** `o[k]` for an object `o`; a missing field reads as `undefined`. */
  function Field(h: Heap, o: ObjId, k: string): Val
  {
    if o in h && k in h[o] then h[o][k] else Undef
  }

  /** `v[k]` for a value known not to be `null` or `undefined`.
      Only objects carry fields in this model. */
  function Get(h: Heap, v: Val, k: string): (r: Val)
    ensures !v.Ref? ==> r == Undef
  {
    if v.Ref? then Field(h, v.o, k) else Undef
  }

  /** `o[k] = v`. */
  function SetField(h: Heap, o: ObjId, k: string, v: Val): (h': Heap)
    requires o in h
    ensures h'.Keys == h.Keys
    ensures Field(h', o, k) == v
    ensures forall p, j :: (p != o || j != k) ==> Field(h', p, j) == Field(h, p, j)
  {
    h[o := h[o][k := v]]
  }

  /** A value whose reference, if any, points into the heap. */
  predicate InHeap(h: Heap, v: Val)
  {
    v.Ref? ==> v.o in h
  }

  /** No field of any object points outside the heap. */
  predicate Closed(h: Heap)
  {
    forall o, k | o in h && k in h[o] :: InHeap(h, h[o][k])
  }

  /** Reading a field of a closed heap gives a value of that heap. */
  lemma GetInHeap(h: Heap, v: Val, k: string)
    requires Closed(h) && InHeap(h, v)
    ensures InHeap(h, Get(h, v, k))
  {
  }

  /** A JavaScript array object: its identity is the reference, its elements
      are updated in place. A hole reads as `undefined`. */
  class JsArray {
    var elems: seq<Val>

    constructor (elems: seq<Val>)
      ensures this.elems == elems
    {
      this.elems := elems;
    }
  }

  /** The JavaScript heap of objects, updated in place. */
  class JsHeap {
    var objs: Heap

    constructor (objs: Heap)
      ensures this.objs == objs
    {
      this.objs := objs;
    }
  }
}
