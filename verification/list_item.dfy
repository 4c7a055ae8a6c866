/** `ListItem` of lib/list/list-item.ts: a parentless value that stands for
    one slot `list[index]` of a backing array, and whose `update` writes
    into that slot, or merges into the object held there with
    `Object.assign`. */
module ListItems {
  import opened Js
  import Utils
  import Store

  /** The own enumerable fields `Object.assign` copies from a source value:
      those of an object, and none for `undefined`, `null` and the other
      primitives. */
  function OwnFields(h: Heap, v: Val): (r: Obj)
    ensures !v.Ref? ==> r == map[]
  {
    if v.Ref? && v.o in h then h[v.o] else map[]
  }

  /** `Object.assign(target, source)`: a `TypeError` for an `undefined` or
      `null` target; an object target takes every field of the source,
      keeping its other fields and its identity; other targets are
      wrapped in a temporary object, so nothing observable changes (the
      read-only index fields of a string target are not modelled). */
  function Assign(h: Heap, target: Val, source: Val): (r: Completion<Heap>)
    ensures r.Threw? <==> target.Undef? || target.Null?
    ensures r.Threw? ==> r.error == TypeError
    ensures r.Returned? ==> r.value.Keys == h.Keys
    ensures r.Returned? ==> forall o, k | o in h && !(target.Ref? && o == target.o) :: Field(r.value, o, k) == Field(h, o, k)
    ensures r.Returned? && target.Ref? && target.o in h ==>
              forall k :: Field(r.value, target.o, k) == if k in OwnFields(h, source) then OwnFields(h, source)[k] else Field(h, target.o, k)
  {
    if target.Undef? || target.Null? then Threw(TypeError)
    else if target.Ref? && target.o in h then Returned(h[target.o := h[target.o] + OwnFields(h, source)])
    else Returned(h)
  }

  /** A source with no fields of its own (such as the `undefined` a callback
      returns when it only mutates its argument) changes nothing. */
  lemma AssignNothing(h: Heap, target: Val, source: Val)
    requires !target.Undef? && !target.Null? && !source.Ref?
    ensures Assign(h, target, source) == Returned(h)
  {
    if target.Ref? && target.o in h {
      assert h[target.o] + map[] == h[target.o];
      assert h[target.o := h[target.o]] == h;
    }
  }

  /** Assigning the same source twice is the same as assigning it once. */
  lemma AssignIdempotent(h: Heap, target: Val, source: Val)
    requires !target.Undef? && !target.Null?
    ensures Assign(h, target, source).Returned?
    ensures Assign(Assign(h, target, source).value, target, source) == Assign(h, target, source)
  {
    var h1 := Assign(h, target, source).value;
    if target.Ref? && target.o in h {
      var t := target.o;
      var own := OwnFields(h1, source);
      if source.Ref? && source.o == t {
        assert own == h1[t];
      } else {
        assert own == OwnFields(h, source);
      }
      assert h1[t] + own == h1[t];
      assert h1[t := h1[t]] == h1;
    }
  }

  class ListItem {
    /** The backing array the item writes into. */
    const list: JsArray
    /** The slot of `list` the item stands for. */
    var index: int
    /** The `value` of the item as a `Value`: the element it was built with. */
    const value: Val
    /** The `parent` of the item as a `Value`. */
    const parent: Val

    /** `new ListItem(list, index, value)`: a value with a `null` parent. */
    constructor (list: JsArray, index: int, value: Val)
      ensures this.list == list && this.index == index && this.value == value
      ensures parent == Null
    {
      this.list := list;
      this.index := index;
      this.value := value;
      this.parent := Null;
    }

    /** `update(newValueOrCallback)`. A value that is not a function is
        stored in `list[index]`; a function is called with `list[index]`
        and returns `upd.ret`, whose fields `Object.assign` copies onto
        `list[index]`: the slot keeps the same object. */
    method Update(upd: Store.Updater, heap: JsHeap) returns (r: Completion<()>)
      modifies list, heap
      ensures upd.Give? ==> r == Returned(()) && heap.objs == old(heap.objs) &&
                            list.elems == Utils.Put(old(list.elems), index, upd.v, Undef)
      ensures upd.Call? ==>
                list.elems == old(list.elems) &&
                var a := Assign(old(heap.objs), Utils.At(old(list.elems), index, Undef), upd.ret);
                (a.Threw? ==> r == Threw(a.error) && heap.objs == old(heap.objs)) &&
                (a.Returned? ==> r == Returned(()) && heap.objs == a.value)
      ensures 0 <= index < |old(list.elems)| ==> |list.elems| == |old(list.elems)|
    {
      if upd.Call? {
        var target := Utils.At(list.elems, index, Undef);
        var a := Assign(heap.objs, target, upd.ret);
        if a.Threw? {
          return Threw(a.error);
        }
        heap.objs := a.value;
      } else {
        list.elems := Utils.Put(list.elems, index, upd.v, Undef);
      }
      r := Returned(());
    }
  }
}
