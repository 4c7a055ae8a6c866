/** `fromBindable(bindable)` of lib/list/from-bindable.ts: a list store over a
    bound array value. It keeps the array (`snapshot`) and an array of
    `ListItem` wrappers (`listItems`) of the same length, changes both in
    lockstep, and after a change writes the array back to the bindable and
    flushes the bindable's chain of values. The bindable is a value of a
    store graph: the model keeps the graph's parent links and records the
    calls made to it. */
module FromBindable {
  import opened Js
  import opened ListMutation
  import Utils
  import Store
  import opened ListItems

  /** What the list does that others see, in order: a mutation sent to
      subscribers, a call `bindable.update(snapshot)` (with the elements the
      snapshot then holds), or a call `flush(targets)`. */
  datatype Event<I> = Emitted(m: Mutation<I>) | Wrote(elems: seq<Val>) | Flushed(targets: seq<Store.NodeId>)

  /** The events of one `flushChanges()`: the snapshot is written to the
      bindable `b`, then `b`, each of its ancestors, and `b` once more are
      flushed. */
  function FlushEvents<I>(graph: Store.Nodes, b: Store.NodeId, elems: seq<Val>): (r: seq<Event<I>>)
    requires Store.Linked(graph) && b in graph
    ensures |r| == 2 && r[0] == Wrote(elems) && r[1].Flushed?
    ensures var t := r[1].targets; |t| >= 2 && t[0] == b && t[|t| - 1] == b
  {
    [Wrote(elems), Flushed(Store.Ancestors(graph, b) + [b])]
  }

  /** Flushing `b`'s chain followed by `b` calls the observers of `b`
      first, then those of its ancestors from the root down, then those of
      `b` a second time. */
  lemma BindableNotifiedTwice(graph: Store.Nodes, b: Store.NodeId)
    requires Store.Linked(graph) && b in graph
    ensures var chain := Store.Ancestors(graph, b);
            var own := Store.ObserverNotes(b, graph[b].observers, graph[b].value);
            Store.Notifications(graph, chain + [b]) == own + Store.Notifications(graph, chain[1..]) + own
  {
    ChainThenFirst(graph, Store.Ancestors(graph, b));
  }

  /** Flushing a list of nodes followed by its first node once more. */
  lemma ChainThenFirst(graph: Store.Nodes, chain: seq<Store.NodeId>)
    requires chain != [] && forall i | 0 <= i < |chain| :: chain[i] in graph
    ensures var own := Store.ObserverNotes(chain[0], graph[chain[0]].observers, graph[chain[0]].value);
            Store.Notifications(graph, chain + [chain[0]]) == own + Store.Notifications(graph, chain[1..]) + own
  {
    hide Store.Notifications, Store.ObserverNotes;
    var b := chain[0];
    Store.NotificationsAppend(graph, chain, [b]);
    Store.NotificationsFirst(graph, chain);
  }

  /** The events of building the wrappers for `vs`: subscribing to a wrapper
      whose value is defined delivers that value at once, and so runs
      `flushChanges`. */
  function CreationEvents(graph: Store.Nodes, b: Store.NodeId, elems: seq<Val>, vs: seq<Val>): seq<Event<ListItem>>
    requires Store.Linked(graph) && b in graph
    decreases |vs|
  {
    if vs == [] then []
    else CreationEvents(graph, b, elems, vs[..|vs| - 1]) +
         (if vs[|vs| - 1] != Undef then FlushEvents(graph, b, elems) else [])
  }

  /** `insert` sends a push of the new wrapper: a subscriber that applies
      it appends the wrapper at the end, while the list holds it at the
      insert position, so the two differ whenever that is not the end. */
  lemma InsertSentAsPush<T>(s: seq<T>, i: int, x: T)
    requires 0 <= i < |s| && s[i] != x
    ensures Utils.InsertAt(s, i, x) != s + [x]
  {
    Utils.InsertAtIndex(s, i, x, i);
    assert (s + [x])[i] == s[i];
  }

  /** No wrapper is listed twice; a hole (`undefined`) is `null`. */
  ghost predicate Distinct(s: seq<ListItem?>)
  {
    forall i, j | 0 <= i < j < |s| && s[i] != null :: s[i] != s[j]
  }

  lemma DistinctInsert(s: seq<ListItem?>, k: int, x: ListItem)
    requires Distinct(s) && forall j | 0 <= j < |s| :: s[j] != x
    ensures Distinct(Utils.InsertAt(s, k, x))
  {
    var r := Utils.InsertAt(s, k, x);
    forall i, j | 0 <= i < j < |r| && r[i] != null
      ensures r[i] != r[j]
    {
      Utils.InsertAtIndex(s, k, x, i);
      Utils.InsertAtIndex(s, k, x, j);
    }
  }

  lemma DistinctDelete(s: seq<ListItem?>, k: int)
    requires Distinct(s)
    ensures Distinct(Utils.DeleteAt(s, k))
  {
    var r := Utils.DeleteAt(s, k);
    forall i, j | 0 <= i < j < |r| && r[i] != null
      ensures r[i] != r[j]
    {
      Utils.DeleteAtIndex(s, k, i);
      Utils.DeleteAtIndex(s, k, j);
    }
  }

  lemma DistinctSwap(s: seq<ListItem?>, from: int, to: int)
    requires Distinct(s)
    ensures Distinct(Utils.SwapAll(s, from, to, null))
  {
    var r := Utils.SwapAll(s, from, to, null);
    forall i, j | 0 <= i < j < |r| && r[i] != null
      ensures r[i] != r[j]
    {
      Utils.SwapAllAt(s, from, to, null, i);
      Utils.SwapAllAt(s, from, to, null, j);
    }
  }

  /** Whether the remove predicate `p` accepts a wrapper's value:
      `li.value && mut.predicate(li.value)`. */
  predicate Accepts(test: (FnId, Val) -> bool, p: Predicate, v: Val)
  {
    Truthy(v) && p.Callback? && test(p.f, v)
  }

  /** `listItems.findIndex(li => li.value && mut.predicate(li.value))`: a
      hole throws a `TypeError` (reading `value` of `undefined`), and so
      does a truthy value when the predicate is a number. */
  function FindItem(test: (FnId, Val) -> bool, items: seq<ListItem?>, p: Predicate): (r: Completion<int>)
    ensures r.Threw? ==> r.error == TypeError
    ensures r.Returned? ==> -1 <= r.value < |items|
    ensures r.Returned? ==>
              forall j | 0 <= j < |items| && (r.value == -1 || j < r.value) ::
                items[j] != null && !Accepts(test, p, items[j].value) && !(p.IndexNumber? && Truthy(items[j].value))
    ensures r.Returned? && r.value >= 0 ==> items[r.value] != null && Accepts(test, p, items[r.value].value)
    ensures r.Threw? ==>
              exists j | 0 <= j < |items| ::
                (items[j] == null || (p.IndexNumber? && Truthy(items[j].value))) &&
                forall i | 0 <= i < j :: items[i] != null && !Accepts(test, p, items[i].value)
    decreases |items|
  {
    if items == [] then Returned(-1)
    else if items[0] == null then Threw(TypeError)
    else if Truthy(items[0].value) && p.IndexNumber? then Threw(TypeError)
    else if Accepts(test, p, items[0].value) then Returned(0)
    else
      var r := FindItem(test, items[1..], p);
      if r.Threw? then
        ghost var j :| 0 <= j < |items[1..]| &&
                       (items[1..][j] == null || (p.IndexNumber? && Truthy(items[1..][j].value))) &&
                       forall i | 0 <= i < j :: items[1..][i] != null && !Accepts(test, p, items[1..][i].value);
        assert items[j + 1] == items[1..][j];
        assert forall i | 1 <= i < j + 1 :: items[i] == items[1..][i - 1];
        r
      else if r.value < 0 then Returned(-1)
      else Returned(r.value + 1)
  }

  /** Where a remove mutation points: its `index`, or else the first wrapper
      whose value the predicate accepts. */
  function RemoveIndex(test: (FnId, Val) -> bool, items: seq<ListItem?>, mut: Mutation<Val>): (r: Completion<int>)
    requires mut.RemoveAt? || mut.Remove?
    ensures mut.RemoveAt? ==> r == Returned(mut.index)
    ensures mut.Remove? ==> r == FindItem(test, items, mut.pred)
  {
    if mut.Remove? then FindItem(test, items, mut.pred) else Returned(mut.index)
  }

  /** The first hole at or after `from`, or where the array ends. */
  function HoleFrom(s: seq<ListItem?>, from: nat): (r: nat)
    ensures from <= r
    ensures from <= |s| ==> r <= |s|
    ensures from > |s| ==> r == from
    ensures r < |s| ==> s[r] == null
    ensures forall j | from <= j < r && j < |s| :: s[j] != null
    decreases |s| - from
  {
    if from >= |s| || s[from] == null then from else HoleFrom(s, from + 1)
  }

  /** The loop of the `remove` branch that sets `index` of the wrappers
      from `from` on to their positions. It throws a `TypeError` at the
      first hole, having renumbered the wrappers before it. */
  method Renumber(items: seq<ListItem?>, from: nat) returns (r: Completion<()>)
    requires Distinct(items)
    modifies items
    ensures var stop := HoleFrom(items, from);
            (r.Returned? <==> stop >= |items|) && (r.Threw? ==> r.error == TypeError) &&
            (forall j | from <= j < stop && j < |items| :: items[j].index == j) &&
            (forall j | 0 <= j < |items| && items[j] != null && !(from <= j < stop) :: items[j].index == old(items[j].index))
  {
    var i := from;
    while i < |items|
      invariant from <= i && (i <= |items| || i == from)
      invariant HoleFrom(items, from) == HoleFrom(items, i)
      invariant forall j | from <= j < i :: items[j] != null && items[j].index == j
      invariant forall j | 0 <= j < |items| && items[j] != null && !(from <= j < i) :: items[j].index == old(items[j].index)
    {
      if items[i] == null {
        return Threw(TypeError);
      }
      items[i].index := i;
      i := i + 1;
    }
    r := Returned(());
  }

  class BindableList {
    /** The bound array, shared with every wrapper as its `list`. */
    const snapshot: JsArray
    /** One wrapper per element; `null` for a hole. */
    var listItems: seq<ListItem?>
    /** Everything the list made others see, oldest first. */
    var log: seq<Event<ListItem>>
    /** The parent links and observers of the store graph the bindable is
        a value of. */
    const graph: Store.Nodes
    const bindable: Store.NodeId
    /** Whether predicate function `f` accepts a value. */
    const test: (FnId, Val) -> bool
    /** The objects the elements point to. */
    const heap: JsHeap

    ghost predicate Bound()
    {
      Store.Linked(graph) && bindable in graph
    }

    ghost predicate Valid()
      reads this, snapshot
    {
      Bound() && |listItems| == |snapshot.elems| && Distinct(listItems) &&
      forall j | 0 <= j < |listItems| && listItems[j] != null :: listItems[j].list == snapshot
    }

    /** Every wrapper knows its own position. */
    ghost predicate Numbered()
      reads this, listItems
    {
      forall j | 0 <= j < |listItems| && listItems[j] != null :: listItems[j].index == j
    }

    /** `fromBindable(bindable)`: the snapshot is the bindable's value, or a
        new empty array when that value is falsy (`current == null`), and
        each element gets a wrapper at its position. */
    constructor (current: JsArray?, graph: Store.Nodes, bindable: Store.NodeId, test: (FnId, Val) -> bool, heap: JsHeap)
      requires Store.Linked(graph) && bindable in graph
      ensures Valid() && Numbered()
      ensures this.graph == graph && this.bindable == bindable && this.test == test && this.heap == heap
      ensures current != null ==> snapshot == current
      ensures current == null ==> fresh(snapshot) && snapshot.elems == []
      ensures forall j | 0 <= j < |listItems| :: listItems[j] != null && fresh(listItems[j]) && listItems[j].value == snapshot.elems[j]
      ensures log == CreationEvents(graph, bindable, snapshot.elems, snapshot.elems)
    {
      var arr: JsArray;
      if current != null {
        arr := current;
      } else {
        arr := new JsArray([]);
      }
      snapshot := arr;
      this.graph := graph;
      this.bindable := bindable;
      this.test := test;
      this.heap := heap;
      listItems := [];
      log := [];
      new;
      var items: seq<ListItem?> := [];
      var i := 0;
      ghost var elems := snapshot.elems;
      while i < |snapshot.elems|
        invariant snapshot.elems == elems
        invariant 0 <= i <= |snapshot.elems| && |items| == i
        invariant Distinct(items)
        invariant forall j | 0 <= j < i :: items[j] != null && fresh(items[j]) && items[j].list == snapshot &&
                                              items[j].index == j && items[j].value == snapshot.elems[j]
        invariant log == CreationEvents(graph, bindable, snapshot.elems, snapshot.elems[..i])
      {
        var item := CreateItem(snapshot.elems[i], i);
        assert snapshot.elems[..i + 1][..i] == snapshot.elems[..i];
        items := items + [item];
        i := i + 1;
      }
      assert snapshot.elems[..i] == snapshot.elems;
      listItems := items;
    }

    /** `flushChanges()`: writes the snapshot back with `bindable.update`,
        collects the bindable and its ancestors walking up the parent
        links, and flushes them followed by the bindable. */
    method FlushChanges()
      requires Bound()
      modifies this`log
      ensures log == old(log) + FlushEvents(graph, bindable, snapshot.elems)
    {
      log := log + [Wrote(snapshot.elems)];
      var dirty := Store.AncestorChain(graph, bindable);
      if |dirty| > 0 {
        log := log + [Flushed(dirty + [bindable])];
      }
    }

    /** `createItem(v, i)`: a wrapper over the snapshot, subscribed with
        `flushChanges`; a defined value is delivered at once. */
    method CreateItem(v: Val, i: int) returns (item: ListItem)
      requires Bound()
      modifies this`log
      ensures fresh(item) && item.list == snapshot && item.index == i && item.value == v && item.parent == Null
      ensures log == old(log) + (if v != Undef then FlushEvents(graph, bindable, snapshot.elems) else [])
    {
      item := new ListItem(snapshot, i, v);
      if v != Undef {
        FlushChanges();
      }
    }

    /** `length`. */
    function Length(): (n: int)
      reads this, snapshot
      ensures Valid() ==> n == |snapshot.elems|
    {
      |listItems|
    }

    /** `peek(fn)`: `fn` applied to the snapshot as it is now. */
    function Peek<R>(fn: seq<Val> -> R): R
      reads snapshot
    {
      fn(snapshot.elems)
    }

    /** The `insert` branch: a wrapper built for the value (flushing the
        snapshot as it was when the value is defined) goes in at the same
        position as the value, and subscribers are sent a push of it. The
        wrappers after it keep their indices. */
    method ApplyInsert(v: Val, i: int)
      requires Valid()
      modifies this`listItems, this`log, snapshot
      ensures Valid()
      ensures var k := Utils.SpliceStart(i, |old(listItems)|);
              |listItems| == |old(listItems)| + 1 && listItems[..k] == old(listItems)[..k] &&
              listItems[k + 1..] == old(listItems)[k..] &&
              listItems[k] != null && fresh(listItems[k]) && listItems[k].index == i && listItems[k].value == v &&
              log == old(log) + (if v != Undef then FlushEvents(graph, bindable, old(snapshot.elems)) else []) +
                     [Emitted(Push(listItems[k]))]
      ensures snapshot.elems == Utils.InsertAt(old(snapshot.elems), i, v)
      ensures old(Numbered()) && 0 <= i < |old(listItems)| && old(listItems)[i] != null ==> !Numbered()
    {
      var item := CreateItem(v, i);
      DistinctInsert(listItems, i, item);
      listItems := Utils.InsertAt(listItems, i, item);
      snapshot.elems := Utils.InsertAt(snapshot.elems, i, v);
      log := log + [Emitted(Push(item))];
      var k := Utils.SpliceStart(i, |old(listItems)|);
      forall j | 0 <= j < |listItems| && listItems[j] != null
        ensures listItems[j].list == snapshot
      {
        Utils.InsertAtIndex(old(listItems), i, item, j);
      }
      if old(Numbered()) && 0 <= i < |old(listItems)| && old(listItems)[i] != null {
        assert listItems[i + 1] == old(listItems)[i];
      }
    }

    /** The `push` branch: the value is appended to the snapshot, then a
        wrapper at the old length is built (flushing the longer snapshot
        when the value is defined) and appended, and subscribers are sent a
        push of it. */
    method ApplyPush(v: Val)
      requires Valid()
      modifies this`listItems, this`log, snapshot
      ensures Valid()
      ensures snapshot.elems == old(snapshot.elems) + [v]
      ensures var n := |old(listItems)|;
              |listItems| == n + 1 && listItems[..n] == old(listItems) &&
              listItems[n] != null && fresh(listItems[n]) && listItems[n].index == n && listItems[n].value == v &&
              log == old(log) + (if v != Undef then FlushEvents(graph, bindable, snapshot.elems) else []) +
                     [Emitted(Push(listItems[n]))]
      ensures old(Numbered()) ==> Numbered()
    {
      snapshot.elems := snapshot.elems + [v];
      var index := |listItems|;
      var item := CreateItem(v, index);
      listItems := listItems + [item];
      log := log + [Emitted(Push(item))];
    }

    /** The `remove` branch: where the index is not negative the wrapper and
        the value there are deleted and every later wrapper is renumbered to
        its new position (a hole among them throws); then `flushChanges`
        runs and subscribers are sent a remove with the index. */
    method ApplyRemove(mut: Mutation<Val>) returns (r: Completion<()>)
      requires Valid() && (mut.RemoveAt? || mut.Remove?)
      modifies this`listItems, this`log, snapshot, listItems
      ensures Valid()
      ensures var k := RemoveIndex(test, old(listItems), mut);
              k.Threw? ==> r == Threw(k.error) && listItems == old(listItems) && snapshot.elems == old(snapshot.elems) &&
                           log == old(log)
      ensures var k := RemoveIndex(test, old(listItems), mut);
              k.Returned? ==>
                listItems == (if k.value >= 0 then Utils.DeleteAt(old(listItems), k.value) else old(listItems)) &&
                snapshot.elems == (if k.value >= 0 then Utils.DeleteAt(old(snapshot.elems), k.value) else old(snapshot.elems))
      ensures var k := RemoveIndex(test, old(listItems), mut);
              k.Returned? && k.value < 0 ==>
                r == Returned(()) && log == old(log) + FlushEvents(graph, bindable, snapshot.elems) + [Emitted(RemoveAt(k.value))]
      ensures var k := RemoveIndex(test, old(listItems), mut);
              k.Returned? && k.value >= 0 ==>
                var stop := HoleFrom(listItems, k.value);
                (forall j | k.value <= j < stop && j < |listItems| :: listItems[j].index == j) &&
                (forall o: ListItem | o in listItems && !(exists j | k.value <= j < stop && j < |listItems| :: listItems[j] == o) ::
                   o.index == old(o.index)) &&
                (r.Returned? <==> stop >= |listItems|) &&
                (r.Threw? ==> r.error == TypeError && log == old(log)) &&
                (r.Returned? ==> log == old(log) + FlushEvents(graph, bindable, snapshot.elems) + [Emitted(RemoveAt(k.value))])
      ensures old(Numbered()) && r.Returned? ==> Numbered()
    {
      var found := RemoveIndex(test, listItems, mut);
      if found.Threw? {
        return Threw(found.error);
      }
      r := RemoveFound(found.value);
    }

    /** The `remove` branch once the index is found. */
    method RemoveFound(index: int) returns (r: Completion<()>)
      requires Valid()
      modifies this`listItems, this`log, snapshot, listItems
      ensures Valid()
      ensures listItems == (if index >= 0 then Utils.DeleteAt(old(listItems), index) else old(listItems))
      ensures snapshot.elems == (if index >= 0 then Utils.DeleteAt(old(snapshot.elems), index) else old(snapshot.elems))
      ensures index < 0 ==> r == Returned(()) && log == old(log) + FlushEvents(graph, bindable, snapshot.elems) + [Emitted(RemoveAt(index))]
      ensures index >= 0 ==>
                var stop := HoleFrom(listItems, index);
                (forall j | index <= j < stop && j < |listItems| :: listItems[j].index == j) &&
                (forall o: ListItem | o in listItems && !(exists j | index <= j < stop && j < |listItems| :: listItems[j] == o) ::
                   o.index == old(o.index)) &&
                (r.Returned? <==> stop >= |listItems|) &&
                (r.Threw? ==> r.error == TypeError && log == old(log)) &&
                (r.Returned? ==> log == old(log) + FlushEvents(graph, bindable, snapshot.elems) + [Emitted(RemoveAt(index))])
      ensures old(Numbered()) && r.Returned? ==> Numbered()
    {
      if index >= 0 {
        DeleteItem(index);
        r := Renumber(listItems, index);
        if r.Threw? {
          return;
        }
      }
      FlushChanges();
      log := log + [Emitted(RemoveAt(index))];
      r := Returned(());
    }

    /** The two `splice(index, 1)` calls of the `remove` branch. */
    method DeleteItem(index: int)
      requires Valid() && index >= 0
      modifies this`listItems, snapshot
      ensures Valid()
      ensures listItems == Utils.DeleteAt(old(listItems), index)
      ensures snapshot.elems == Utils.DeleteAt(old(snapshot.elems), index)
      ensures old(Numbered()) ==> forall j | 0 <= j < index && j < |listItems| && listItems[j] != null :: listItems[j].index == j
    {
      DistinctDelete(listItems, index);
      forall j | 0 <= j < |Utils.DeleteAt(listItems, index)|
        ensures Utils.DeleteAt(listItems, index)[j] == if j < index then listItems[j] else listItems[j + 1]
      {
        Utils.DeleteAtIndex(listItems, index, j);
      }
      listItems := Utils.DeleteAt(listItems, index);
      snapshot.elems := Utils.DeleteAt(snapshot.elems, index);
    }

    /** The `move` branch: the same two positions are exchanged in both
        arrays, and subscribers are sent the mutation. The wrappers keep
        their `index` fields. */
    method ApplyMove(from: int, to: int)
      requires Valid()
      modifies this`listItems, this`log, snapshot
      ensures Valid()
      ensures listItems == Utils.SwapAll(old(listItems), from, to, null)
      ensures snapshot.elems == Utils.SwapAll(old(snapshot.elems), from, to, Undef)
      ensures log == old(log) + [Emitted(Move(from, to))]
      ensures (old(Numbered()) && 0 <= from < |old(listItems)| && 0 <= to < |old(listItems)| && from != to &&
               old(listItems)[from] != null) ==> !Numbered()
    {
      DistinctSwap(listItems, from, to);
      Utils.SwapAllSameLength(listItems, snapshot.elems, from, to, null, Undef);
      forall j | 0 <= j < |Utils.SwapAll(listItems, from, to, null)| && Utils.SwapAll(listItems, from, to, null)[j] != null
        ensures Utils.SwapAll(listItems, from, to, null)[j].list == snapshot
      {
        Utils.SwapAllAt(listItems, from, to, null, j);
      }
      listItems := Utils.SwapAll(listItems, from, to, null);
      Utils.SwapItems(snapshot, from, to);
      log := log + [Emitted(Move(from, to))];
      if old(Numbered()) && 0 <= from < |old(listItems)| && 0 <= to < |old(listItems)| && from != to && old(listItems)[from] != null {
        Utils.SwapExchanges(old(listItems), from, to, null);
        assert listItems[to] == old(listItems)[from];
      }
    }

    /** The `update` branch: the wrapper at `index` merges what the callback
        returns (`ret`) into the element at the wrapper's own `index`; then
        the wrapper's properties are digested (`itemDirty` being what that
        digest reports) and, when any changed, they are flushed followed by
        the bindable. */
    method ApplyUpdate(index: int, callback: FnId, ret: Plain, itemDirty: seq<Store.NodeId>) returns (r: Completion<()>)
      requires Valid()
      modifies this`log, snapshot, heap
      ensures Valid() && listItems == old(listItems) && snapshot.elems == old(snapshot.elems)
      ensures Utils.At(listItems, index, null) == null ==> r == Threw(TypeError) && heap.objs == old(heap.objs) && log == old(log)
      ensures var item := Utils.At(listItems, index, null);
              item != null ==>
                var a := Assign(old(heap.objs), Utils.At(old(snapshot.elems), item.index, Undef), ret);
                (a.Threw? ==> r == Threw(a.error) && heap.objs == old(heap.objs) && log == old(log)) &&
                (a.Returned? ==> r == Returned(()) && heap.objs == a.value &&
                                 log == old(log) + if |itemDirty| > 0 then [Flushed(itemDirty + [bindable])] else [])
      ensures Numbered() == old(Numbered())
    {
      var item := Utils.At(listItems, index, null);
      if item == null {
        return Threw(TypeError);
      }
      r := item.Update(Store.Call(callback, ret), heap);
      if r.Threw? {
        return;
      }
      var dirty := itemDirty;
      if |dirty| > 0 {
        log := log + [Flushed(dirty + [bindable])];
      }
    }

    /** `add(m)`: the branch for the mutation's type; a `reset` has none,
        so nothing happens. `ret` is what an `update` callback returns and
        `itemDirty` what the digest after it reports. */
    method Add(mut: Mutation<Val>, ret: Plain, itemDirty: seq<Store.NodeId>) returns (r: Completion<()>)
      requires Valid()
      modifies this`listItems, this`log, snapshot, listItems, heap
      ensures Valid() && |listItems| == |snapshot.elems|
      ensures !mut.Update? ==> heap.objs == old(heap.objs)
      ensures mut.Insert? ==>
                var k := Utils.SpliceStart(mut.index, |old(listItems)|);
                r == Returned(()) && |listItems| == |old(listItems)| + 1 &&
                listItems[..k] == old(listItems)[..k] && listItems[k + 1..] == old(listItems)[k..] &&
                listItems[k] != null && fresh(listItems[k]) && listItems[k].index == mut.index &&
                listItems[k].value == mut.values &&
                snapshot.elems == Utils.InsertAt(old(snapshot.elems), mut.index, mut.values) &&
                log == old(log) + (if mut.values != Undef then FlushEvents(graph, bindable, old(snapshot.elems)) else []) +
                       [Emitted(Push(listItems[k]))]
      ensures mut.Push? ==>
                var n := |old(listItems)|;
                r == Returned(()) && snapshot.elems == old(snapshot.elems) + [mut.values] &&
                |listItems| == n + 1 && listItems[..n] == old(listItems) &&
                listItems[n] != null && fresh(listItems[n]) && listItems[n].index == n && listItems[n].value == mut.values &&
                log == old(log) + (if mut.values != Undef then FlushEvents(graph, bindable, snapshot.elems) else []) +
                       [Emitted(Push(listItems[n]))]
      ensures mut.RemoveAt? || mut.Remove? ==>
                var k := RemoveIndex(test, old(listItems), mut);
                (k.Threw? ==> r == Threw(k.error) && listItems == old(listItems) && snapshot.elems == old(snapshot.elems) &&
                              log == old(log)) &&
                (k.Returned? ==>
                   listItems == (if k.value >= 0 then Utils.DeleteAt(old(listItems), k.value) else old(listItems)) &&
                   snapshot.elems == (if k.value >= 0 then Utils.DeleteAt(old(snapshot.elems), k.value) else old(snapshot.elems)) &&
                   (k.value < 0 ==> r == Returned(())) &&
                   (k.value >= 0 ==> (r.Returned? <==> HoleFrom(listItems, k.value) >= |listItems|) &&
                                     forall j | k.value <= j < HoleFrom(listItems, k.value) && j < |listItems| :: listItems[j].index == j) &&
                   (r.Threw? ==> r.error == TypeError && log == old(log)) &&
                   (r.Returned? ==> log == old(log) + FlushEvents(graph, bindable, snapshot.elems) + [Emitted(RemoveAt(k.value))]))
      ensures mut.Move? ==>
                r == Returned(()) &&
                listItems == Utils.SwapAll(old(listItems), mut.from, mut.to, null) &&
                snapshot.elems == Utils.SwapAll(old(snapshot.elems), mut.from, mut.to, Undef) &&
                log == old(log) + [Emitted(Move(mut.from, mut.to))]
      ensures mut.Update? ==>
                listItems == old(listItems) && snapshot.elems == old(snapshot.elems) &&
                var item := Utils.At(listItems, mut.index, null);
                (item == null ==> r == Threw(TypeError) && heap.objs == old(heap.objs) && log == old(log)) &&
                (item != null ==>
                   var a := Assign(old(heap.objs), Utils.At(old(snapshot.elems), item.index, Undef), ret);
                   (a.Threw? ==> r == Threw(a.error) && heap.objs == old(heap.objs) && log == old(log)) &&
                   (a.Returned? ==> r == Returned(()) && heap.objs == a.value &&
                                    log == old(log) + if |itemDirty| > 0 then [Flushed(itemDirty + [bindable])] else []))
      ensures mut.Reset? ==> r == Returned(()) && listItems == old(listItems) && snapshot.elems == old(snapshot.elems) &&
                             log == old(log) && heap.objs == old(heap.objs)
    {
      hide FlushEvents, RemoveIndex, HoleFrom, Assign, Utils.InsertAt, Utils.DeleteAt, Utils.SwapAll, Utils.At, Utils.SpliceStart;
      r := Returned(());
      match mut {
        case Insert(v, i) => ApplyInsert(v, i);
        case Push(v) => ApplyPush(v);
        case RemoveAt(_) => r := ApplyRemove(mut);
        case Remove(_) => r := ApplyRemove(mut);
        case Move(from, to) => ApplyMove(from, to);
        case Update(index, callback) => r := ApplyUpdate(index, callback, ret, itemDirty);
        case Reset(_) =>
      }
    }
  }
}
