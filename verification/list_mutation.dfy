/** The list mutations of lib/list/list-mutation.ts: a closed tagged union,
    its constructors and the tag test `isMutation`. */
module ListMutation {
  import opened Js

  /** What a remove mutation keeps under its `predicate` field:
      `removeItem` stores a number there as readily as a function. */
  datatype Predicate = IndexNumber(n: int) | Callback(f: FnId)

  /** One mutation object. `RemoveAt` is the `{type: 'remove', index}` shape
      that the list stores also accept and emit; `Remove` is the
      `{type: 'remove', predicate}` shape that `removeItem` builds. */
  datatype Mutation<T> =
    | Push(values: T)
    | Insert(values: T, index: int)
    | RemoveAt(index: int)
    | Remove(pred: Predicate)
    | Move(from: int, to: int)
    | Reset(items: seq<T>)
    | Update(index: int, callback: FnId)

  /** The object's `type` field. */
  function Type<T>(m: Mutation<T>): string
  {
    match m
    case Push(_) => "push"
    case Insert(_, _) => "insert"
    case RemoveAt(_) => "remove"
    case Remove(_) => "remove"
    case Move(_, _) => "move"
    case Reset(_) => "reset"
    case Update(_, _) => "update"
  }

  /** An argument handed to a list store's `add`: either a mutation object
      (with its identity, as it is itself a value) or some other value that
      carries no mutation tag. */
  datatype Input<T> = Plain(v: Val) | MutationObject(ref: ObjId, m: Mutation<T>)

  function UpdateItem<T>(index: int, callback: FnId): (m: Mutation<T>)
    ensures Type(m) == "update" && m.Update? && m.index == index && m.callback == callback
  {
    Update(index, callback)
  }

  function PushItem<T>(values: T): (m: Mutation<T>)
    ensures Type(m) == "push" && m.Push? && m.values == values
  {
    Push(values)
  }

  function InsertItem<T>(values: T, index: int): (m: Mutation<T>)
    ensures Type(m) == "insert" && m.Insert? && m.values == values && m.index == index
  {
    Insert(values, index)
  }

  /** `removeItem(p)` keeps `p` under `predicate`, whether `p` is a number or
      a function: it never builds the `{index}` shape. */
  function RemoveItem<T>(p: Predicate): (m: Mutation<T>)
    ensures Type(m) == "remove" && m.Remove? && !m.RemoveAt? && m.pred == p
  {
    Remove(p)
  }

  function ResetItems<T>(items: seq<T>): (m: Mutation<T>)
    ensures Type(m) == "reset" && m.Reset? && m.items == items
  {
    Reset(items)
  }

  /** `isMutation(m)`: a truthy value whose `type` is one of the five
      structural tags. */
  function IsMutation<T>(x: Input<T>): (r: bool)
    ensures r <==> x.MutationObject? && !x.m.Update?
  {
    x.MutationObject? &&
    var t := Type(x.m);
    t == "remove" || t == "push" || t == "insert" || t == "reset" || t == "move"
  }

  /** Falsy input is never a mutation. */
  lemma FalsyIsNotMutation<T>(v: Val)
    requires !Truthy(v)
    ensures !IsMutation<T>(Plain(v))
  {
  }

  /** What the constructors build passes the tag test, except `updateItem`. */
  lemma ConstructorsPassTagTest<T>(o: ObjId, v: T, i: int, p: Predicate, items: seq<T>, f: FnId)
    ensures IsMutation(MutationObject(o, PushItem(v)))
    ensures IsMutation(MutationObject(o, InsertItem(v, i)))
    ensures IsMutation(MutationObject(o, RemoveItem<T>(p)))
    ensures IsMutation(MutationObject(o, ResetItems(items)))
    ensures !IsMutation(MutationObject(o, UpdateItem<T>(i, f)))
  {
  }
}
