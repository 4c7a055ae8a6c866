/** The older list stores of lib/list/index.ts: `asListSource`, which picks
    a list store for an array or for a bound value, and the earlier
    `fromArray` and `fromBindable`. They differ from the newer ones in how a
    remove finds its element, in the remove they send, in the wrappers they
    build, and in never renumbering those wrappers. */
module LegacyList {
  import opened Js
  import opened ListMutation
  import Utils
  import Store
  import FromArray
  import FromBindable

  /** Every id of a chain of ancestors after the first is smaller than the
      first, since a parent has a smaller id than its child. */
  lemma {:induction false} AncestorsBelow(m: Store.Nodes, x: Store.NodeId)
    requires Store.Linked(m) && x in m
    ensures forall i | 0 < i < |Store.Ancestors(m, x)| :: Store.Ancestors(m, x)[i] < x
    decreases x
  {
    var r := Store.Ancestors(m, x);
    if m[x].parent.Some? {
      var p := m[x].parent.value;
      AncestorsBelow(m, p);
      assert r == [x] + Store.Ancestors(m, p);
      forall i | 0 < i < |r|
        ensures r[i] < x
      {
        assert r[i] == Store.Ancestors(m, p)[i - 1];
      }
    }
  }

  /** The events of one `flushChanges()` of the older store: the snapshot
      is written to the bindable `b`, then `b` and each of its ancestors are
      flushed, `b` only once. */
  function FlushEvents<I>(graph: Store.Nodes, b: Store.NodeId, elems: seq<Val>): (r: seq<FromBindable.Event<I>>)
    requires Store.Linked(graph) && b in graph
    ensures |r| == 2 && r[0] == FromBindable.Wrote(elems) && r[1].Flushed?
    ensures var t := r[1].targets; t != [] && t[0] == b && forall i | 0 < i < |t| :: t[i] != b
  {
    AncestorsBelow(graph, b);
    [FromBindable.Wrote(elems), FromBindable.Flushed(Store.Ancestors(graph, b))]
  }

  /** Flushing `b`'s chain calls the observers of `b` once, before those
      of its ancestors. */
  lemma BindableNotifiedOnce(graph: Store.Nodes, b: Store.NodeId)
    requires Store.Linked(graph) && b in graph
    ensures var chain := Store.Ancestors(graph, b);
            var own := Store.ObserverNotes(b, graph[b].observers, graph[b].value);
            Store.Notifications(graph, chain) == Store.Notifications(graph, chain[1..]) + own &&
            forall i | 0 < i < |chain| :: chain[i] != b
  {
    AncestorsBelow(graph, b);
  }

  /** Where the older `fromArray` removes: a number under `predicate` is the
      index, a function is handed to `findIndex`; a remove without
      `predicate` (the `{index}` shape) hands `undefined` to `findIndex`,
      which throws a `TypeError`. */
  function RemoveIndex(test: (FnId, Val) -> bool, s: seq<Val>, mut: Mutation<Val>): (r: Completion<int>)
    requires mut.RemoveAt? || mut.Remove?
    ensures mut.RemoveAt? ==> r == Threw(TypeError)
    ensures mut.Remove? && mut.pred.IndexNumber? ==> r == Returned(mut.pred.n)
    ensures mut.Remove? && mut.pred.Callback? ==>
              r.Returned? && -1 <= r.value < |s| &&
              (r.value >= 0 ==> test(mut.pred.f, s[r.value])) &&
              forall k | 0 <= k < |s| && (r.value == -1 || k < r.value) :: !test(mut.pred.f, s[k])
  {
    if mut.RemoveAt? then Threw(TypeError)
    else if mut.pred.IndexNumber? then Returned(mut.pred.n)
    else Returned(Utils.FindIndex(s, v => test(mut.pred.f, v)))
  }

  /** What the older `applyMutation(mut)` leaves in the array and sends, or
      the error it throws. A remove is sent as a number under `predicate`. */
  function Outcome(test: (FnId, Val) -> bool, s: seq<Val>, mut: Mutation<Val>): Completion<(seq<Val>, seq<Mutation<Val>>)>
  {
    match mut
    case Insert(v, i) => Returned((Utils.InsertAt(s, i, v), [mut]))
    case Push(v) => Returned((s + [v], [mut]))
    case Move(from, to) => Returned((Utils.SwapAll(s, from, to, Undef), [mut]))
    case Reset(_) => Returned((s, []))
    case Update(_, _) => Returned((s, []))
    case RemoveAt(_) => Threw(TypeError)
    case Remove(_) =>
      var k := RemoveIndex(test, s, mut).value;
      Returned((if k >= 0 then Utils.DeleteAt(s, k) else s, [Remove(IndexNumber(k))]))
  }

  /** Whatever the older `applyMutation` sends, a mirror that applies it
      reaches the new array. */
  lemma OutcomeMirrored(test: (FnId, Val) -> bool, s: seq<Val>, mut: Mutation<Val>)
    requires Outcome(test, s, mut).Returned?
    ensures FromArray.Replay(s, Outcome(test, s, mut).value.1) == Outcome(test, s, mut).value.0
  {
    var events := Outcome(test, s, mut).value.1;
    if events != [] {
      assert events == [events[0]];
      assert FromArray.Replay(s, events) == FromArray.Replay(FromArray.Step(s, events[0]), []);
    }
  }

  /** The older and the newer `fromArray` agree on every mutation but a
      remove. */
  lemma AgreesExceptRemove(test: (FnId, Val) -> bool, s: seq<Val>, mut: Mutation<Val>)
    requires !mut.RemoveAt? && !mut.Remove?
    ensures Outcome(test, s, mut) == FromArray.Outcome(test, s, mut)
  {
  }

  /** A remove by number deletes there when the number is not negative and
      sends the same number back. */
  lemma RemoveByNumber(test: (FnId, Val) -> bool, s: seq<Val>, n: int)
    ensures Outcome(test, s, Remove(IndexNumber(n))) ==
            Returned((if n >= 0 then Utils.DeleteAt(s, n) else s, [Remove(IndexNumber(n))]))
  {
  }

  class LegacyArrayList {
    /** The array handed to `fromArray`, updated in place. */
    const snapshot: JsArray
    /** Whether predicate function `f` accepts an element. */
    const test: (FnId, Val) -> bool
    /** Every mutation sent to subscribers, oldest first. */
    var emitted: seq<Mutation<Val>>
    /** The array when the store was made. */
    ghost const start: seq<Val>

    ghost predicate Valid()
      reads this, snapshot
    {
      FromArray.Replay(start, emitted) == snapshot.elems
    }

    constructor (snapshot: JsArray, test: (FnId, Val) -> bool)
      ensures Valid() && this.snapshot == snapshot && this.test == test
      ensures emitted == [] && start == snapshot.elems
    {
      this.snapshot := snapshot;
      this.test := test;
      emitted := [];
      start := snapshot.elems;
    }

    /** `length`. */
    function Length(): (n: nat)
      reads this, snapshot
      ensures Valid() ==> n == |FromArray.Replay(start, emitted)|
    {
      |snapshot.elems|
    }

    /** The older `applyMutation(mut)`. */
    method ApplyMutation(mut: Mutation<Val>) returns (r: Completion<()>)
      requires Valid()
      modifies this`emitted, snapshot
      ensures Valid()
      ensures var o := Outcome(test, old(snapshot.elems), mut);
              (o.Threw? ==> r == Threw(o.error) && snapshot.elems == old(snapshot.elems) && emitted == old(emitted)) &&
              (o.Returned? ==> r == Returned(()) && snapshot.elems == o.value.0 && emitted == old(emitted) + o.value.1)
    {
      ghost var s := snapshot.elems;
      r := Returned(());
      match mut {
        case Insert(v, i) =>
          snapshot.elems := Utils.InsertAt(snapshot.elems, i, v);
          emitted := emitted + [mut];
        case Push(v) =>
          snapshot.elems := snapshot.elems + [v];
          emitted := emitted + [mut];
        case Move(from, to) =>
          Utils.SwapItems(snapshot, from, to);
          emitted := emitted + [mut];
        case Reset(_) =>
        case Update(_, _) =>
        case RemoveAt(_) =>
          return Threw(TypeError);
        case Remove(p) =>
          var index := if p.IndexNumber? then p.n else Utils.FindIndex(snapshot.elems, v => test(p.f, v));
          RemoveResolved(index);
      }
      if Outcome(test, s, mut).Returned? {
        OutcomeMirrored(test, s, mut);
        var sent := Outcome(test, s, mut).value.1;
        if sent != [] {
          assert sent == [sent[0]];
          FromArray.ReplayAppend(start, old(emitted), sent[0]);
        }
      }
    }

    /** The end of the remove branch: delete at a non-negative index, and
        send the index as a number under `predicate`. */
    method RemoveResolved(index: int)
      modifies this`emitted, snapshot
      ensures snapshot.elems == if index >= 0 then Utils.DeleteAt(old(snapshot.elems), index) else old(snapshot.elems)
      ensures emitted == old(emitted) + [Remove(IndexNumber(index))]
    {
      if index >= 0 {
        snapshot.elems := Utils.DeleteAt(snapshot.elems, index);
      }
      emitted := emitted + [Remove(IndexNumber(index))];
    }

    /** `add(values)`: a mutation is applied, anything else pushed. */
    method Add(x: Input<Val>) returns (r: Completion<()>)
      requires Valid()
      modifies this`emitted, snapshot
      ensures Valid()
      ensures var o := Outcome(test, old(snapshot.elems), FromArray.Added(x));
              (o.Threw? ==> r == Threw(o.error) && snapshot.elems == old(snapshot.elems) && emitted == old(emitted)) &&
              (o.Returned? ==> r == Returned(()) && snapshot.elems == o.value.0 && emitted == old(emitted) + o.value.1)
    {
      if IsMutation(x) {
        r := ApplyMutation(x.m);
      } else if x.Plain? {
        r := ApplyMutation(Push(x.v));
      } else {
        r := ApplyMutation(Push(Ref(x.ref)));
      }
    }
  }

  /** The older `ListItem`: a value with an `undefined` parent that keeps
      the array and slot it was built with. The store builds every one with
      a `null` array. */
  class LegacyItem {
    const list: JsArray?
    const index: int
    const value: Val
    const parent: Val

    /** `new ListItem(list, index, value)`. */
    constructor (list: JsArray?, index: int, value: Val)
      ensures this.list == list && this.index == index && this.value == value
      ensures parent == Undef
    {
      this.list := list;
      this.index := index;
      this.value := value;
      this.parent := Undef;
    }

    /** `update(newValue)`: `list[index] = newValue`, a `TypeError` when the
        array is `null`. */
    method Update(newValue: Val) returns (r: Completion<()>)
      modifies list
      ensures list == null ==> r == Threw(TypeError)
      ensures list != null ==> r == Returned(()) && list.elems == Utils.Put(old(list.elems), index, newValue, Undef)
    {
      if list == null {
        return Threw(TypeError);
      }
      list.elems := Utils.Put(list.elems, index, newValue, Undef);
      r := Returned(());
    }
  }

  /** Where the older `fromBindable` removes: a number under `predicate` is
      the index; a function is handed to `listItems.findIndex`, so it is
      called on the wrappers (a hole as `undefined`, written `null` here);
      the `{index}` shape throws a `TypeError`. */
  function ItemRemoveIndex(itemTest: (FnId, LegacyItem?) -> bool, items: seq<LegacyItem?>, mut: Mutation<Val>): (r: Completion<int>)
    requires mut.RemoveAt? || mut.Remove?
    ensures mut.RemoveAt? ==> r == Threw(TypeError)
    ensures mut.Remove? && mut.pred.IndexNumber? ==> r == Returned(mut.pred.n)
    ensures mut.Remove? && mut.pred.Callback? ==>
              r.Returned? && -1 <= r.value < |items| &&
              (r.value >= 0 ==> itemTest(mut.pred.f, items[r.value])) &&
              forall k | 0 <= k < |items| && (r.value == -1 || k < r.value) :: !itemTest(mut.pred.f, items[k])
  {
    if mut.RemoveAt? then Threw(TypeError)
    else if mut.pred.IndexNumber? then Returned(mut.pred.n)
    else Returned(Utils.FindIndex(items, x => itemTest(mut.pred.f, x)))
  }

  /** The events of building the older wrappers for `vs`: each wrapper
      whose value is defined runs the older `flushChanges` as soon as it is
      subscribed to. */
  function CreationEvents(graph: Store.Nodes, b: Store.NodeId, elems: seq<Val>, vs: seq<Val>): seq<FromBindable.Event<LegacyItem>>
    requires Store.Linked(graph) && b in graph
    decreases |vs|
  {
    if vs == [] then []
    else CreationEvents(graph, b, elems, vs[..|vs| - 1]) +
         (if vs[|vs| - 1] != Undef then FlushEvents(graph, b, elems) else [])
  }

  /** Building one more older wrapper appends its own events. */
  lemma CreationEventsNext(graph: Store.Nodes, b: Store.NodeId, elems: seq<Val>, i: nat)
    requires Store.Linked(graph) && b in graph && i < |elems|
    ensures CreationEvents(graph, b, elems, elems[..i + 1]) ==
            CreationEvents(graph, b, elems, elems[..i]) + (if elems[i] != Undef then FlushEvents(graph, b, elems) else [])
  {
    assert elems[..i + 1][..i] == elems[..i];
  }

  class LegacyBindableList {
    /** The bound array; the wrappers do not share it. */
    const snapshot: JsArray
    /** One wrapper per element; `null` for a hole. */
    var listItems: seq<LegacyItem?>
    /** Everything the list made others see, oldest first. */
    var log: seq<FromBindable.Event<LegacyItem>>
    const graph: Store.Nodes
    const bindable: Store.NodeId
    /** Whether predicate function `f` accepts a wrapper. */
    const itemTest: (FnId, LegacyItem?) -> bool

    ghost predicate Valid()
      reads this, snapshot
    {
      Store.Linked(graph) && bindable in graph && |listItems| == |snapshot.elems|
    }

    /** The older `fromBindable(bindable)`: the snapshot is the bindable's
        value or a new empty array, and each element gets a wrapper with a
        `null` array. */
    constructor (current: JsArray?, graph: Store.Nodes, bindable: Store.NodeId, itemTest: (FnId, LegacyItem?) -> bool)
      requires Store.Linked(graph) && bindable in graph
      ensures Valid()
      ensures this.graph == graph && this.bindable == bindable && this.itemTest == itemTest
      ensures current != null ==> snapshot == current
      ensures current == null ==> fresh(snapshot) && snapshot.elems == []
      ensures forall j | 0 <= j < |listItems| ::
                listItems[j] != null && fresh(listItems[j]) && listItems[j].list == null &&
                listItems[j].index == j && listItems[j].value == snapshot.elems[j]
      ensures log == CreationEvents(graph, bindable, snapshot.elems, snapshot.elems)
    {
      var arr: JsArray;
      if current != null {
        arr := current;
      } else {
        arr := new JsArray([]);
      }
      snapshot := arr;
      this.graph := graph;
      this.bindable := bindable;
      this.itemTest := itemTest;
      listItems := [];
      log := [];
      new;
      var items: seq<LegacyItem?> := [];
      var i := 0;
      ghost var elems := snapshot.elems;
      while i < |snapshot.elems|
        invariant snapshot.elems == elems
        invariant 0 <= i <= |snapshot.elems| && |items| == i
        invariant forall j | 0 <= j < i :: items[j] != null && fresh(items[j]) && items[j].list == null &&
                                              items[j].index == j && items[j].value == snapshot.elems[j]
        invariant log == CreationEvents(graph, bindable, snapshot.elems, snapshot.elems[..i])
      {
        CreationEventsNext(graph, bindable, snapshot.elems, i);
        var item := CreateItem(snapshot.elems[i], i);
        items := items + [item];
        i := i + 1;
      }
      assert snapshot.elems[..i] == snapshot.elems;
      listItems := items;
    }

    /** `flushChanges()`: the snapshot is written back, then the bindable
        and its ancestors are flushed. */
    method FlushChanges()
      requires Store.Linked(graph) && bindable in graph
      modifies this`log
      ensures log == old(log) + FlushEvents(graph, bindable, snapshot.elems)
    {
      log := log + [FromBindable.Wrote(snapshot.elems)];
      var dirty := Store.AncestorChain(graph, bindable);
      log := log + [FromBindable.Flushed(dirty)];
    }

    /** `createItem(v, i)`: a wrapper with a `null` array, subscribed with
        `flushChanges`, which runs at once for a defined value. */
    method CreateItem(v: Val, i: int) returns (item: LegacyItem)
      requires Store.Linked(graph) && bindable in graph
      modifies this`log
      ensures fresh(item) && item.list == null && item.index == i && item.value == v && item.parent == Undef
      ensures log == old(log) + (if v != Undef then FlushEvents(graph, bindable, snapshot.elems) else [])
    {
      item := new LegacyItem(null, i, v);
      if v != Undef {
        FlushChanges();
      }
    }

    /** `length`. */
    function Length(): (n: nat)
      reads this, snapshot
      ensures Valid() ==> n == |snapshot.elems|
    {
      |listItems|
    }

    /** `add(m)`, which is the older `applyMutation(m)`. Insert and push
        build the wrapper (flushing the snapshot as it was) before changing
        either array; no wrapper's `index` changes. */
    method Add(mut: Mutation<Val>) returns (r: Completion<()>)
      requires Valid()
      modifies this`listItems, this`log, snapshot
      ensures Valid()
      ensures mut.Insert? ==>
                var k := Utils.SpliceStart(mut.index, |old(listItems)|);
                r == Returned(()) && |listItems| == |old(listItems)| + 1 &&
                listItems[..k] == old(listItems)[..k] && listItems[k + 1..] == old(listItems)[k..] &&
                listItems[k] != null && fresh(listItems[k]) && listItems[k].index == mut.index &&
                listItems[k].value == mut.values && listItems[k].list == null &&
                snapshot.elems == Utils.InsertAt(old(snapshot.elems), mut.index, mut.values) &&
                log == old(log) + (if mut.values != Undef then FlushEvents(graph, bindable, old(snapshot.elems)) else []) +
                       [FromBindable.Emitted(Push(listItems[k]))]
      ensures mut.Push? ==>
                var n := |old(listItems)|;
                r == Returned(()) && |listItems| == n + 1 && listItems[..n] == old(listItems) &&
                listItems[n] != null && fresh(listItems[n]) && listItems[n].index == n &&
                listItems[n].value == mut.values && listItems[n].list == null &&
                snapshot.elems == old(snapshot.elems) + [mut.values] &&
                log == old(log) + (if mut.values != Undef then FlushEvents(graph, bindable, old(snapshot.elems)) else []) +
                       [FromBindable.Emitted(Push(listItems[n]))]
      ensures (mut.RemoveAt? || mut.Remove?) ==>
                var k := ItemRemoveIndex(itemTest, old(listItems), mut);
                (k.Threw? ==> r == Threw(k.error) && listItems == old(listItems) && snapshot.elems == old(snapshot.elems) && log == old(log)) &&
                (k.Returned? ==>
                   r == Returned(()) &&
                   listItems == (if k.value >= 0 then Utils.DeleteAt(old(listItems), k.value) else old(listItems)) &&
                   snapshot.elems == (if k.value >= 0 then Utils.DeleteAt(old(snapshot.elems), k.value) else old(snapshot.elems)) &&
                   log == old(log) + FlushEvents(graph, bindable, snapshot.elems) + [FromBindable.Emitted(Remove(IndexNumber(k.value)))])
      ensures mut.Move? ==>
                r == Returned(()) &&
                listItems == Utils.SwapAll(old(listItems), mut.from, mut.to, null) &&
                snapshot.elems == Utils.SwapAll(old(snapshot.elems), mut.from, mut.to, Undef) &&
                log == old(log) + [FromBindable.Emitted(Move(mut.from, mut.to))]
      ensures (mut.Reset? || mut.Update?) ==>
                r == Returned(()) && listItems == old(listItems) && snapshot.elems == old(snapshot.elems) && log == old(log)
    {
      r := Returned(());
      match mut {
        case Insert(v, i) =>
          var item := CreateItem(v, i);
          listItems := Utils.InsertAt(listItems, i, item);
          snapshot.elems := Utils.InsertAt(snapshot.elems, i, v);
          log := log + [FromBindable.Emitted(Push(item))];
        case Push(v) =>
          var index := |listItems|;
          var item := CreateItem(v, index);
          listItems := listItems + [item];
          snapshot.elems := snapshot.elems + [v];
          log := log + [FromBindable.Emitted(Push(item))];
        case RemoveAt(_) =>
          return Threw(TypeError);
        case Remove(p) =>
          var index := if p.IndexNumber? then p.n else Utils.FindIndex(listItems, x => itemTest(p.f, x));
          RemoveResolved(index);
        case Move(from, to) =>
          Utils.SwapAllSameLength(listItems, snapshot.elems, from, to, null, Undef);
          listItems := Utils.SwapAll(listItems, from, to, null);
          Utils.SwapItems(snapshot, from, to);
          log := log + [FromBindable.Emitted(Move(from, to))];
        case Reset(_) =>
        case Update(_, _) =>
      }
    }

    /** The end of the older remove branch: delete from both arrays at a
        non-negative index, flush, and send the index under `predicate`. */
    method RemoveResolved(index: int)
      requires Valid()
      modifies this`listItems, this`log, snapshot
      ensures Valid()
      ensures listItems == (if index >= 0 then Utils.DeleteAt(old(listItems), index) else old(listItems))
      ensures snapshot.elems == (if index >= 0 then Utils.DeleteAt(old(snapshot.elems), index) else old(snapshot.elems))
      ensures log == old(log) + FlushEvents(graph, bindable, snapshot.elems) + [FromBindable.Emitted(Remove(IndexNumber(index)))]
    {
      if index >= 0 {
        listItems := Utils.DeleteAt(listItems, index);
        snapshot.elems := Utils.DeleteAt(snapshot.elems, index);
      }
      FlushChanges();
      log := log + [FromBindable.Emitted(Remove(IndexNumber(index)))];
    }
  }

  /** What `asListSource` is handed: an array, or a bound value (its
      current array, `null` when falsy, and where it sits in its graph). */
  datatype Source = Array(arr: JsArray) | Bindable(current: JsArray?, graph: Store.Nodes, node: Store.NodeId)

  /** The list store `asListSource` builds. */
  datatype ListSource = OfArray(a: LegacyArrayList) | OfBindable(b: LegacyBindableList)

  /** `asListSource(source)`: an array gets the older `fromArray`, anything
      else the older `fromBindable`. */
  method AsListSource(source: Source, test: (FnId, Val) -> bool, itemTest: (FnId, LegacyItem?) -> bool) returns (r: ListSource)
    requires source.Bindable? ==> Store.Linked(source.graph) && source.node in source.graph
    ensures source.Array? <==> r.OfArray?
    ensures r.OfArray? ==> fresh(r.a) && r.a.Valid() && r.a.snapshot == source.arr && r.a.emitted == []
    ensures r.OfBindable? ==> fresh(r.b) && r.b.Valid() && r.b.graph == source.graph && r.b.bindable == source.node
  {
    if source.Array? {
      var a := new LegacyArrayList(source.arr, test);
      r := OfArray(a);
    } else {
      var b := new LegacyBindableList(source.current, source.graph, source.node, itemTest);
      r := OfBindable(b);
    }
  }
}
