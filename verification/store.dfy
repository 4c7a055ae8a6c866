/** The reactive value graph of lib/store.ts. Every `Value` (a `Store`, an
    `ObjectProperty`, a lifted `ValueObserver`, a `ListItem`) is a node of one
    `Graph`: its `value`, its parent link, its ordered `properties` and its
    ordered `observers`. The JavaScript objects the values point to live in
    the graph's heap, and every call of an observer's `next` is appended to a
    notification log. */
module Store {
  import opened Js
  import Utils
  import Merge

  type NodeId = nat

  /** Which class a node is an instance of. A `Store` and a `ListItem` have
      no parent; an `ObjectProperty` reads field `name` of its parent's
      value; a lifted node applies its function `valueFrom`. */
  datatype Kind = Root | Item(index: int) | Named(name: string) | Lifted(valueFrom: FnId)

  /** An observer: an object the caller passed (identified by the caller),
      or the `{ next: f }` wrapper that `onChange` builds around a function. */
  datatype ObserverId = Given(id: nat) | Wrapper(serial: nat)

  /** What `onChange` is handed: a function, or an object that does or does
      not have a `next` method. */
  datatype ObserverArg = FunctionObserver(f: FnId) | ObjectObserver(id: nat, hasNext: bool)

  /** What `onChange` returns: the shared empty subscription, or one that
      removes `observer` from the observers of `node`. */
  datatype Subscription = NoSubscription | Subscription(node: NodeId, observer: ObserverId)

  datatype Node = Node(kind: Kind, parent: Option<NodeId>, value: Val,
                       properties: seq<NodeId>, observers: seq<ObserverId>)

  /** One call `observer.next(value)` on an observer of `node`. */
  datatype Note = Note(node: NodeId, observer: ObserverId, value: Val)

  /** What an update is handed: a value, or a function together with what it
      returns when called with the current value. */
  datatype Updater = Give(v: Plain) | Call(f: FnId, ret: Plain)

  type Nodes = map<NodeId, Node>

  /** The name of a node that is an `ObjectProperty`. */
  function NameOf(n: Node): Option<string>
  {
    if n.kind.Named? then Some(n.kind.name) else None
  }

  /** The parent links: a parent has a smaller id than its child, each
      property of a node is a node whose parent is that node, and no node is
      listed twice among the properties of one parent. */
  ghost predicate Linked(m: Nodes)
  {
    (forall x | x in m && m[x].parent.Some? :: m[x].parent.value in m && m[x].parent.value < x) &&
    (forall x, i | x in m && 0 <= i < |m[x].properties| ::
       m[x].properties[i] in m && m[m[x].properties[i]].parent == Some(x)) &&
    (forall x, i, j | x in m && 0 <= i < j < |m[x].properties| ::
       m[x].properties[i] != m[x].properties[j])
  }

  /** `Store` and `ListItem` nodes are the ones without a parent; property
      nodes are `ObjectProperty` and lifted nodes. */
  ghost predicate Kinds(m: Nodes)
  {
    forall x | x in m :: (m[x].kind.Root? || m[x].kind.Item?) <==> m[x].parent.None?
  }

  /** No two properties of one node are `ObjectProperty` nodes of the same name. */
  ghost predicate UniqueNames(m: Nodes)
  {
    forall x, i, j | x in m && 0 <= i < j < |m[x].properties| && m[x].properties[i] in m && m[x].properties[j] in m ::
      NameOf(m[m[x].properties[i]]).Some? ==> NameOf(m[m[x].properties[i]]) != NameOf(m[m[x].properties[j]])
  }

  /** The first occurrence of `x` in `s`, or -1 (`indexOf`). */
  function IndexOf<T(==)>(s: seq<T>, x: T): (r: int)
    ensures -1 <= r < |s|
    ensures r >= 0 ==> s[r] == x && x !in s[..r]
    ensures r == -1 <==> x !in s
  {
    if s == [] then -1
    else if s[0] == x then 0
    else
      var r := IndexOf(s[1..], x);
      assert s[1..][..r + 1] == s[..r + 2][1..] by { if r >= 0 { assert s[1..][..r] == s[1..r + 1]; } }
      if r < 0 then -1 else r + 1
  }

  /** `s.splice(s.indexOf(x), 1)` with the guard `idx >= 0` that `dispose`
      has: the first occurrence of `x` is removed, and nothing if there is
      none. */
  function RemoveFirst<T(==)>(s: seq<T>, x: T): (r: seq<T>)
    ensures x !in s ==> r == s
    ensures x in s ==> (|r| == |s| - 1 && r == s[..IndexOf(s, x)] + s[IndexOf(s, x) + 1..])
  {
    var i := IndexOf(s, x);
    if i >= 0 then s[..i] + s[i + 1..] else s
  }

  /** What remains after removing an occurrence was there before. */
  lemma RemoveFirstWithin<T>(s: seq<T>, x: T)
    ensures forall y | y in RemoveFirst(s, x) :: y in s
  {
    if x in s {
      var i := IndexOf(s, x);
      forall y | y in s[..i] + s[i + 1..] ensures y in s {
        var k :| 0 <= k < |s[..i] + s[i + 1..]| && (s[..i] + s[i + 1..])[k] == y;
        assert y == s[if k < i then k else k + 1];
      }
    }
  }

  /** `observers.splice(observers.indexOf(observer), 1)` as `unsubscribe`
      writes it, without a guard. */
  function SpliceOne<T(==)>(s: seq<T>, x: T): seq<T>
  {
    Utils.DeleteAt(s, IndexOf(s, x))
  }

  /** Unsubscribing an observer that is no longer subscribed: `indexOf`
      gives -1 and `splice(-1, 1)` removes the last observer, which is a
      different one. */
  lemma UnsubscribeTwiceRemovesAnother(a: ObserverId, b: ObserverId)
    requires a != b
    ensures SpliceOne([a, b], a) == [b]
    ensures SpliceOne(SpliceOne([a, b], a), a) == []
    ensures RemoveFirst(RemoveFirst([a, b], a), a) == [b]
  {
    assert IndexOf([a, b], a) == 0;
    assert [a, b][1..] == [b];
    assert IndexOf([b], a) == -1 by { assert [b][1..] == []; }
  }

  /** Removing the first occurrence keeps every other entry, in order. */
  lemma {:induction false} RemoveFirstKeepsOthers<T>(s: seq<T>, x: T)
    ensures multiset(RemoveFirst(s, x)) == if x in s then multiset(s) - multiset{x} else multiset(s)
  {
    if x in s {
      var i := IndexOf(s, x);
      assert s == s[..i] + [x] + s[i + 1..];
      assert multiset(s) == multiset(s[..i]) + multiset{x} + multiset(s[i + 1..]);
    }
  }

  /** The graph with a fresh property node `p` appended under `x`. */
  function AppendChild(m: Nodes, x: NodeId, p: NodeId, kind: Kind, value: Val): Nodes
    requires x in m
  {
    m[p := Node(kind, Some(x), value, [], [])][x := m[x].(properties := m[x].properties + [p])]
  }

  lemma AppendChildLinked(m: Nodes, x: NodeId, p: NodeId, kind: Kind, value: Val)
    requires Linked(m) && Kinds(m) && x in m && p !in m && x < p && (kind.Named? || kind.Lifted?)
    ensures Linked(AppendChild(m, x, p, kind, value)) && Kinds(AppendChild(m, x, p, kind, value))
  {
    var m' := AppendChild(m, x, p, kind, value);
    forall y, i | y in m' && 0 <= i < |m'[y].properties|
      ensures m'[y].properties[i] in m' && m'[m'[y].properties[i]].parent == Some(y)
    {
      if y == x && i == |m[x].properties| {
      } else {
        assert m'[y].properties[i] == m[y].properties[i];
      }
    }
  }

  lemma AppendChildNamed(m: Nodes, x: NodeId, p: NodeId, kind: Kind, value: Val)
    requires Linked(m) && UniqueNames(m) && x in m && p !in m
    requires kind.Named? ==> forall i :: 0 <= i < |m[x].properties| ==> NameOf(m[m[x].properties[i]]) != Some(kind.name)
    ensures UniqueNames(AppendChild(m, x, p, kind, value))
  {
    var m' := AppendChild(m, x, p, kind, value);
    forall y, i, j | y in m' && 0 <= i < j < |m'[y].properties| && m'[y].properties[i] in m' && m'[y].properties[j] in m'
      ensures NameOf(m'[m'[y].properties[i]]).Some? ==> NameOf(m'[m'[y].properties[i]]) != NameOf(m'[m'[y].properties[j]])
    {
      var a := m'[y].properties[i];
      assert a == m[y].properties[i] && a in m && a != p;
      assert m'[a].kind == m[a].kind;
      if y == x && j == |m[x].properties| {
      } else {
        var b := m[y].properties[j];
        assert m'[y].properties[j] == b && m'[b].kind == m[b].kind;
      }
    }
  }

  /** The graph with the property at position `k` of `q` unlinked. */
  function Unlink(m: Nodes, q: NodeId, k: nat): Nodes
    requires q in m && k < |m[q].properties|
  {
    m[q := m[q].(properties := m[q].properties[..k] + m[q].properties[k + 1..])]
  }

  /** Position `i` of the shortened list is position `i` or `i + 1` of the
      old one. */
  lemma UnlinkAt(m: Nodes, q: NodeId, k: nat, i: nat)
    requires q in m && k < |m[q].properties| && i < |m[q].properties| - 1
    ensures Unlink(m, q, k)[q].properties[i] == m[q].properties[if i < k then i else i + 1]
  {
  }

  lemma UnlinkLinked(m: Nodes, q: NodeId, k: nat)
    requires q in m && k < |m[q].properties| && Linked(m) && Kinds(m)
    ensures Linked(Unlink(m, q, k)) && Kinds(Unlink(m, q, k))
  {
    var m' := Unlink(m, q, k);
    forall y, i, j | y in m' && 0 <= i < j < |m'[y].properties|
      ensures m'[y].properties[i] != m'[y].properties[j]
    {
      if y == q {
        UnlinkAt(m, q, k, i);
        UnlinkAt(m, q, k, j);
      }
    }
    forall y, i | y in m' && 0 <= i < |m'[y].properties|
      ensures m'[y].properties[i] in m' && m'[m'[y].properties[i]].parent == Some(y)
    {
      if y == q {
        UnlinkAt(m, q, k, i);
      }
    }
  }

  lemma UnlinkNames(m: Nodes, q: NodeId, k: nat)
    requires q in m && k < |m[q].properties| && UniqueNames(m)
    ensures UniqueNames(Unlink(m, q, k))
  {
    var m' := Unlink(m, q, k);
    forall y, i, j | y in m' && 0 <= i < j < |m'[y].properties| && m'[y].properties[i] in m' && m'[y].properties[j] in m'
      ensures NameOf(m'[m'[y].properties[i]]).Some? ==> NameOf(m'[m'[y].properties[i]]) != NameOf(m'[m'[y].properties[j]])
    {
      var a, b := m'[y].properties[i], m'[y].properties[j];
      assert m'[a].kind == m[a].kind && m'[b].kind == m[b].kind;
      if y == q {
        UnlinkAt(m, q, k, i);
        UnlinkAt(m, q, k, j);
      }
    }
  }

  /** Removing a property from its parent's list keeps a graph coherent. */
  lemma UnlinkKeeps(m: Nodes, h: Heap, derive: (FnId, Val, Val) -> Val, n: nat, o: nat, w: nat, q: NodeId, k: nat)
    requires q in m && k < |m[q].properties| && Coherent(m, h, derive, n, o, w)
    ensures Coherent(Unlink(m, q, k), h, derive, n, o, w)
  {
    UnlinkLinked(m, q, k);
    UnlinkNames(m, q, k);
    assert WrappersBelow(Unlink(m, q, k), w) by {
      assert forall y | y in m :: Unlink(m, q, k)[y].observers == m[y].observers;
    }
  }


  /** Every wrapper observer was numbered before `n`. */
  ghost predicate WrappersBelow(m: Nodes, n: nat)
  {
    forall x, i | x in m && 0 <= i < |m[x].observers| && m[x].observers[i].Wrapper? :: m[x].observers[i].serial < n
  }

  /** Two graphs with the same nodes, kinds and links; values and observers
      may differ. */
  ghost predicate SameShape(m: Nodes, m': Nodes)
  {
    m.Keys == m'.Keys &&
    forall y | y in m :: m'[y].kind == m[y].kind && m'[y].parent == m[y].parent && m'[y].properties == m[y].properties
  }

  lemma ShapeKeeps(m: Nodes, m': Nodes)
    requires SameShape(m, m') && Linked(m) && Kinds(m) && UniqueNames(m)
    ensures Linked(m') && Kinds(m') && UniqueNames(m')
  {
    forall y, i, j | y in m' && 0 <= i < j < |m'[y].properties| && m'[y].properties[i] in m' && m'[y].properties[j] in m'
      ensures NameOf(m'[m'[y].properties[i]]).Some? ==> NameOf(m'[m'[y].properties[i]]) != NameOf(m'[m'[y].properties[j]])
    {
      var a, b := m'[y].properties[i], m'[y].properties[j];
      assert NameOf(m'[a]) == NameOf(m[a]) && NameOf(m'[b]) == NameOf(m[b]);
    }
  }

  /** The calls `flush` makes for the observers `obs` of node `x` holding
      `v`: from the last observer to the first. */
  function ObserverNotes(x: NodeId, obs: seq<ObserverId>, v: Val): (r: seq<Note>)
    ensures |r| == |obs|
  {
    if obs == [] then [] else ObserverNotes(x, obs[1..], v) + [Note(x, obs[0], v)]
  }

  /** The calls `flush(dirty)` makes: the dirty list from the last entry to
      the first, each entry's observers from the last to the first, each
      handed the entry's current value. */
  function Notifications(m: Nodes, dirty: seq<NodeId>): seq<Note>
    requires forall i | 0 <= i < |dirty| :: dirty[i] in m
  {
    if dirty == [] then []
    else Notifications(m, dirty[1..]) + ObserverNotes(dirty[0], m[dirty[0]].observers, m[dirty[0]].value)
  }

  /** Flushing a list calls the observers of its first node last. */
  lemma NotificationsFirst(m: Nodes, dirty: seq<NodeId>)
    requires dirty != [] && forall i | 0 <= i < |dirty| :: dirty[i] in m
    ensures Notifications(m, dirty) == Notifications(m, dirty[1..]) + ObserverNotes(dirty[0], m[dirty[0]].observers, m[dirty[0]].value)
    ensures Notifications(m, [dirty[0]]) == ObserverNotes(dirty[0], m[dirty[0]].observers, m[dirty[0]].value)
  {
    assert [dirty[0]][1..] == [];
  }

  /** The `k`-th call for one node goes to its `k`-th observer counted from
      the end. */
  lemma {:induction false} ObserverNotesAt(x: NodeId, obs: seq<ObserverId>, v: Val, k: nat)
    requires k < |obs|
    ensures ObserverNotes(x, obs, v)[k] == Note(x, obs[|obs| - 1 - k], v)
  {
    if k < |obs| - 1 {
      ObserverNotesAt(x, obs[1..], v, k);
    }
  }

  /** Flushing a list that is the concatenation of two notifies for the
      second part first. */
  lemma {:induction false} NotificationsAppend(m: Nodes, a: seq<NodeId>, b: seq<NodeId>)
    requires forall i | 0 <= i < |a| :: a[i] in m
    requires forall i | 0 <= i < |b| :: b[i] in m
    ensures Notifications(m, a + b) == Notifications(m, b) + Notifications(m, a)
  {
    if a == [] {
      assert a + b == b;
    } else {
      assert (a + b)[1..] == a[1..] + b;
      NotificationsAppend(m, a[1..], b);
    }
  }

  /** `y` hangs below `r`: `r` itself, or listed among the properties of a
      parent that hangs below `r`. */
  ghost predicate Attached(m: Nodes, y: NodeId, r: NodeId)
    decreases y
  {
    y == r ||
    (y in m && m[y].parent.Some? && m[y].parent.value < y && m[y].parent.value in m &&
     y in m[m[y].parent.value].properties && Attached(m, m[y].parent.value, r))
  }

  /** The nodes `digest(r)` reaches: `r` and everything hanging below it. */
  ghost function Reach(m: Nodes, r: NodeId): set<NodeId>
  {
    set y | y in m && Attached(m, y, r)
  }

  /** `m` differs from `m0` in node values only. */
  ghost predicate ValuesOnly(m0: Nodes, m: Nodes)
  {
    m.Keys == m0.Keys && forall y | y in m0 :: m[y] == m0[y].(value := m[y].value)
  }

  /** A set of nodes that contains `r` and every property of its members
      contains everything hanging below `r`. */
  lemma {:induction false} ClosedSetHoldsReach(m: Nodes, r: NodeId, s: set<NodeId>, y: NodeId)
    requires r in s
    requires forall z, i | z in s && z in m && 0 <= i < |m[z].properties| :: m[z].properties[i] in s
    requires Attached(m, y, r)
    ensures y in s
    decreases y
  {
    if y != r {
      var p := m[y].parent.value;
      ClosedSetHoldsReach(m, r, s, p);
    }
  }

  /** The stack holds, once each, exactly the pushed nodes not yet popped. */
  ghost predicate StackHolds(stack: seq<NodeId>, seen: set<NodeId>, done: set<NodeId>)
  {
    (forall i | 0 <= i < |stack| :: stack[i] in seen && stack[i] !in done) &&
    (forall i, j | 0 <= i < j < |stack| :: stack[i] != stack[j]) &&
    (forall y | y in seen && y !in done :: y in stack)
  }

  lemma StackPush(stack: seq<NodeId>, seen: set<NodeId>, done: set<NodeId>, c: NodeId)
    requires StackHolds(stack, seen, done) && c !in seen && done <= seen
    ensures StackHolds(stack + [c], seen + {c}, done)
  {
    var stack', seen' := stack + [c], seen + {c};
    forall i | 0 <= i < |stack'| ensures stack'[i] in seen' && stack'[i] !in done {
      if i < |stack| { assert stack'[i] == stack[i]; }
    }
    forall i, j | 0 <= i < j < |stack'| ensures stack'[i] != stack'[j] {
      assert stack'[i] == stack[i];
      if j < |stack| { assert stack'[j] == stack[j]; }
    }
    forall y | y in seen' && y !in done ensures y in stack' {
      if y != c {
        var i :| 0 <= i < |stack| && stack[i] == y;
        assert stack'[i] == y;
      } else {
        assert stack'[|stack|] == c;
      }
    }
  }

  lemma StackPop(stack: seq<NodeId>, seen: set<NodeId>, done: set<NodeId>)
    requires StackHolds(stack, seen, done) && stack != []
    ensures stack[|stack| - 1] in seen && stack[|stack| - 1] !in done
    ensures StackHolds(stack[..|stack| - 1], seen, done + {stack[|stack| - 1]})
  {
    var x := stack[|stack| - 1];
    var rest := stack[..|stack| - 1];
    forall i | 0 <= i < |rest| ensures rest[i] != x {
      assert rest[i] == stack[i];
    }
    forall y | y in seen && y !in done + {x} ensures y in rest {
      var i :| 0 <= i < |stack| && stack[i] == y;
      assert i < |rest| && rest[i] == y;
    }
  }

  /** Where the walk of `digest` from `r` stands between two pops: `seen`
      holds the nodes pushed so far (and `r`), `done` the nodes popped, and
      `stack` the others, once each; every property of a popped node has
      been pushed, and every pushed node hangs below `r` under a popped
      parent. */
  ghost predicate Walk(m0: Nodes, r: NodeId, stack: seq<NodeId>, seen: set<NodeId>, done: set<NodeId>)
  {
    r in seen && seen <= m0.Keys && done <= seen &&
    (forall y | y in seen :: Attached(m0, y, r) && y >= r) &&
    StackHolds(stack, seen, done) &&
    (forall z, i | z in done && z in m0 && 0 <= i < |m0[z].properties| :: m0[z].properties[i] in seen) &&
    (forall y | y in seen && y != r :: y in m0 && m0[y].parent.Some? && m0[y].parent.value in done)
  }

  /** The same while the properties of the popped node `x` are walked from
      the last one down to position `k`: those from `k` on have been pushed,
      and they are the only pushed nodes whose parent is `x`. */
  ghost predicate WalkAt(m0: Nodes, r: NodeId, x: NodeId, k: nat, stack: seq<NodeId>, seen: set<NodeId>, done: set<NodeId>)
  {
    x in done && x in m0 && k <= |m0[x].properties| &&
    r in seen && seen <= m0.Keys && done <= seen &&
    (forall y | y in seen :: Attached(m0, y, r) && y >= r) &&
    StackHolds(stack, seen, done) &&
    (forall z, i | z in done && z != x && z in m0 && 0 <= i < |m0[z].properties| :: m0[z].properties[i] in seen) &&
    (forall i | k <= i < |m0[x].properties| :: m0[x].properties[i] in seen) &&
    (forall y | y in seen && y != r :: y in m0 && m0[y].parent.Some? && m0[y].parent.value in done &&
       (m0[y].parent.value == x ==> y in m0[x].properties[k..]))
  }

  /** Popping the top of the stack starts the walk of its properties. */
  lemma PopStep(m0: Nodes, r: NodeId, stack: seq<NodeId>, seen: set<NodeId>, done: set<NodeId>)
    requires Walk(m0, r, stack, seen, done) && stack != []
    ensures stack[|stack| - 1] !in done
    ensures WalkAt(m0, r, stack[|stack| - 1], |m0[stack[|stack| - 1]].properties|, stack[..|stack| - 1],
                   seen, done + {stack[|stack| - 1]})
  {
    StackPop(stack, seen, done);
  }

  /** The next property `c` of `x` to push has not been pushed before, is
      not the root, hangs below the root, and every pushed node other than
      the root has a pushed parent. */
  lemma NextChild(m0: Nodes, r: NodeId, x: NodeId, k: nat, stack: seq<NodeId>, seen: set<NodeId>, done: set<NodeId>)
    requires Linked(m0) && WalkAt(m0, r, x, k, stack, seen, done) && 0 < k
    ensures m0[x].properties[k - 1] in m0 && m0[m0[x].properties[k - 1]].parent == Some(x)
    ensures m0[x].properties[k - 1] !in seen && m0[x].properties[k - 1] != r && x in seen
    ensures Attached(m0, m0[x].properties[k - 1], r) && m0[x].properties[k - 1] >= r
    ensures forall y | y in seen && y != r :: y in m0 && m0[y].parent.Some? && m0[y].parent.value in seen
  {
    var ps := m0[x].properties;
    var c := ps[k - 1];
    assert c in m0 && m0[c].parent == Some(x) && x < c;
    assert forall i | k <= i < |ps| :: ps[i] != c;
    assert c !in ps[k..];
  }

  /** Pushing the next property `c` of `x` moves the walk down one position. */
  lemma PushStep(m0: Nodes, r: NodeId, x: NodeId, k: nat, stack: seq<NodeId>, seen: set<NodeId>, done: set<NodeId>)
    requires Linked(m0) && WalkAt(m0, r, x, k, stack, seen, done) && 0 < k
    ensures WalkAt(m0, r, x, k - 1, stack + [m0[x].properties[k - 1]], seen + {m0[x].properties[k - 1]}, done)
  {
    NextChild(m0, r, x, k, stack, seen, done);
    var ps := m0[x].properties;
    var c := ps[k - 1];
    StackPush(stack, seen, done, c);
    assert ps[k - 1..] == [c] + ps[k..];
  }

  /** When all properties of `x` are pushed, the walk stands between pops again. */
  lemma EndStep(m0: Nodes, r: NodeId, x: NodeId, stack: seq<NodeId>, seen: set<NodeId>, done: set<NodeId>)
    requires WalkAt(m0, r, x, 0, stack, seen, done)
    ensures Walk(m0, r, stack, seen, done)
  {
  }

  /** `s` from its last element to its first. */
  ghost function Reversed(s: seq<NodeId>): (r: seq<NodeId>)
    ensures |r| == |s| && forall i | 0 <= i < |s| :: r[i] == s[|s| - 1 - i]
  {
    if s == [] then [] else Reversed(s[1..]) + [s[0]]
  }

  /** The nodes of `m` with an id of at least `x`: a property has a larger
      id than its parent, so fewer of them. */
  ghost function From(m: Nodes, x: NodeId): set<NodeId>
  {
    set y | y in m && y >= x
  }

  lemma FromShrinks(m: Nodes, x: NodeId, c: NodeId)
    requires x in m && x < c
    ensures |From(m, c)| < |From(m, x)|
  {
    var a, b := From(m, c), From(m, x);
    assert x in b - a;
    assert b == a + (b - a) && a * (b - a) == {};
  }

  /** The order in which `digest` recomputes the nodes below `x`: the
      properties of `x` from the last to the first, as they are pushed, then
      the nodes below each property, the first property's first, as the
      properties are popped again. */
  ghost function DigestOrder(m: Nodes, x: NodeId): (s: seq<NodeId>)
    requires Linked(m) && x in m
    ensures forall i | 0 <= i < |s| :: s[i] in m && s[i] > x
    decreases |From(m, x)|, 1
  {
    Reversed(m[x].properties) + OrderBelow(m, x, m[x].properties)
  }

  /** The nodes below each of `ps`, properties of `x`, in `digest` order. */
  ghost function OrderBelow(m: Nodes, x: NodeId, ps: seq<NodeId>): (s: seq<NodeId>)
    requires Linked(m) && x in m && forall i | 0 <= i < |ps| :: ps[i] in m && ps[i] > x
    ensures forall i | 0 <= i < |s| :: s[i] in m && s[i] > x
    decreases |From(m, x)|, 0, |ps|
  {
    if ps == [] then []
    else
      FromShrinks(m, x, ps[0]);
      DigestOrder(m, ps[0]) + OrderBelow(m, x, ps[1..])
  }

  /** What the walk still has to recompute for the nodes on `stack`, the
      top one's first. */
  ghost function PendingOrder(m: Nodes, stack: seq<NodeId>): seq<NodeId>
    requires Linked(m) && forall i | 0 <= i < |stack| :: stack[i] in m
  {
    if stack == [] then []
    else DigestOrder(m, stack[|stack| - 1]) + PendingOrder(m, stack[..|stack| - 1])
  }

  /** The nodes of `s` whose value in `m` differs from the one in `m0`, in
      the order of `s`. */
  ghost function ChangedIn(m0: Nodes, m: Nodes, s: seq<NodeId>): seq<NodeId>
    requires forall i | 0 <= i < |s| :: s[i] in m0 && s[i] in m
  {
    if s == [] then []
    else ChangedIn(m0, m, s[..|s| - 1]) + (if m[s[|s| - 1]].value != m0[s[|s| - 1]].value then [s[|s| - 1]] else [])
  }

  /** Reversing one more element from the front appends it. */
  lemma ReversedNext(ps: seq<NodeId>, k: nat)
    requires 0 < k <= |ps|
    ensures Reversed(ps[k - 1..]) == Reversed(ps[k..]) + [ps[k - 1]]
  {
    assert ps[k - 1..][1..] == ps[k..];
  }

  /** Recomputing one more node `c`, not pushed before, appends it to the
      walk order, and to the changed nodes exactly when its value changes. */
  lemma ChildOrder(m0: Nodes, m: Nodes, m': Nodes, seen: set<NodeId>, order: seq<NodeId>, c: NodeId,
                   dirty: seq<NodeId>, dirty': seq<NodeId>)
    requires c in m0 && m.Keys == m0.Keys && m'.Keys == m0.Keys && seen <= m0.Keys && c !in seen
    requires forall i | 0 <= i < |order| :: order[i] in seen
    requires dirty == ChangedIn(m0, m, order)
    requires forall y | y in m && y != c :: m'[y] == m[y]
    requires m[c].value == m0[c].value
    requires dirty' == dirty + (if m'[c].value != m[c].value then [c] else [])
    ensures forall i | 0 <= i < |order + [c]| :: (order + [c])[i] in seen + {c}
    ensures dirty' == ChangedIn(m0, m', order + [c])
  {
    assert (order + [c])[..|order|] == order;
    ChangedInFrame(m0, m, m', order);
  }

  /** The changed nodes of `s` depend on the values of the nodes of `s` only. */
  lemma {:induction false} ChangedInFrame(m0: Nodes, m: Nodes, m': Nodes, s: seq<NodeId>)
    requires forall i | 0 <= i < |s| :: s[i] in m0 && s[i] in m && s[i] in m' && m'[s[i]] == m[s[i]]
    ensures ChangedIn(m0, m', s) == ChangedIn(m0, m, s)
  {
    if s != [] {
      ChangedInFrame(m0, m, m', s[..|s| - 1]);
    }
  }

  /** Pushing the properties `ps` of `x` from the last to the first puts
      the nodes below them, the first property's first, ahead of what the
      stack held. */
  lemma {:induction false} PendingPushed(m: Nodes, x: NodeId, ps: seq<NodeId>, stack: seq<NodeId>)
    requires Linked(m) && x in m && forall i | 0 <= i < |ps| :: ps[i] in m && ps[i] > x
    requires forall i | 0 <= i < |stack| :: stack[i] in m
    ensures forall i | 0 <= i < |stack + Reversed(ps)| :: (stack + Reversed(ps))[i] in m
    ensures PendingOrder(m, stack + Reversed(ps)) == OrderBelow(m, x, ps) + PendingOrder(m, stack)
    decreases |ps|
  {
    hide Linked, DigestOrder;
    if ps != [] {
      PendingPushed(m, x, ps[1..], stack);
      var st := stack + Reversed(ps[1..]);
      assert stack + Reversed(ps) == st + [ps[0]];
      assert (st + [ps[0]])[..|st|] == st;
      calc {
        PendingOrder(m, st + [ps[0]]);
        DigestOrder(m, ps[0]) + PendingOrder(m, st);
        DigestOrder(m, ps[0]) + (OrderBelow(m, x, ps[1..]) + PendingOrder(m, stack));
        OrderBelow(m, x, ps) + PendingOrder(m, stack);
      }
    } else {
      assert stack + Reversed(ps) == stack;
    }
  }

  /** `prop.valueFrom(parentValue, prevValue)` for a property node `n`:
      an `ObjectProperty` gives `parentValue && parentValue[name]`; a
      lifted node applies its function, handed `undefined` for a previous
      value of `null`. */
  function ValueFrom(derive: (FnId, Val, Val) -> Val, h: Heap, n: Node, pv: Val): (v: Val)
    ensures n.kind.Named? && !Truthy(pv) ==> v == pv
    ensures n.kind.Named? && pv.Ref? ==> v == Field(h, pv.o, n.kind.name)
    ensures n.kind.Lifted? ==> v == derive(n.kind.valueFrom, pv, if n.value == Null then Undef else n.value)
    ensures n.kind.Root? || n.kind.Item? ==> v == n.value
  {
    match n.kind
    case Named(name) => if Truthy(pv) then Js.Get(h, pv, name) else pv
    case Lifted(f) => derive(f, pv, if n.value == Null then Undef else n.value)
    case _ => n.value
  }

  /** A recomputed value is a value of the heap when the lifted functions
      only return values of the heap. */
  lemma ValueFromInHeap(derive: (FnId, Val, Val) -> Val, h: Heap, n: Node, pv: Val)
    requires Closed(h) && (forall f, a, b :: InHeap(h, derive(f, a, b)))
    requires InHeap(h, n.value) && InHeap(h, pv)
    ensures InHeap(h, ValueFrom(derive, h, n, pv))
  {
    if n.kind.Named? {
      GetInHeap(h, pv, n.kind.name);
    }
  }

  /** After a digest every node still holds a value of the heap. */
  lemma {:induction false} RecomputedInHeap(derive: (FnId, Val, Val) -> Val, h: Heap, m0: Nodes, m: Nodes, r: NodeId, s: set<NodeId>, y: NodeId)
    requires ValuesOnly(m0, m) && s <= m0.Keys && Recomputed(derive, h, m0, m, r, s) && Linked(m0)
    requires Closed(h) && (forall f, a, b :: InHeap(h, derive(f, a, b)))
    requires forall z | z in m0 :: InHeap(h, m0[z].value)
    requires y in m
    ensures InHeap(h, m[y].value)
    decreases y
  {
    if y in s && y != r {
      var p := m0[y].parent.value;
      RecomputedInHeap(derive, h, m0, m, r, s, p);
      ValueFromInHeap(derive, h, m0[y], m[p].value);
    }
  }

  /** Every node in `s` other than `r` holds its `valueFrom` against its
      parent's value in `m`; every other node holds its value in `m0`. */
  ghost predicate Recomputed(derive: (FnId, Val, Val) -> Val, h: Heap, m0: Nodes, m: Nodes, r: NodeId, s: set<NodeId>)
    requires ValuesOnly(m0, m) && s <= m0.Keys
  {
    (forall y | y in m0 && (y !in s || y == r) :: m[y].value == m0[y].value) &&
    (forall y {:trigger y in s} | y in s && y != r ::
       m0[y].parent.Some? && m0[y].parent.value in m0 &&
       m[y].value == ValueFrom(derive, h, m0[y], m[m0[y].parent.value].value))
  }

  /** `dirty` lists, once each, exactly the nodes of `s` other than `r`
      whose value changed. */
  ghost predicate DirtyExactly(m0: Nodes, m: Nodes, r: NodeId, s: set<NodeId>, dirty: seq<NodeId>)
    requires ValuesOnly(m0, m) && s <= m0.Keys
  {
    (forall i, j | 0 <= i < j < |dirty| :: dirty[i] != dirty[j]) &&
    (forall y :: y in dirty <==> y in s && y != r && m[y].value != m0[y].value)
  }

  /** Recomputing one more node `c`, whose parent `x` is final, to a new
      value `v` extends what has been recomputed, and the dirty list, by `c`. */
  lemma RecomputeChanged(derive: (FnId, Val, Val) -> Val, h: Heap, m0: Nodes, m: Nodes, r: NodeId, seen: set<NodeId>, c: NodeId, x: NodeId,
                         dirty: seq<NodeId>, v: Val)
    requires ValuesOnly(m0, m) && seen <= m0.Keys
    requires Recomputed(derive, h, m0, m, r, seen) && DirtyExactly(m0, m, r, seen, dirty)
    requires c in m0 && c !in seen && c != r && m0[c].parent == Some(x) && x in seen
    requires forall y | y in seen && y != r :: y in m0 && m0[y].parent.Some? && m0[y].parent.value in seen
    requires v == ValueFrom(derive, h, m[c], m[x].value) && v != m[c].value
    ensures m[c].value == m0[c].value
    ensures ValuesOnly(m0, m[c := m[c].(value := v)]) && seen + {c} <= m0.Keys
    ensures Recomputed(derive, h, m0, m[c := m[c].(value := v)], r, seen + {c})
    ensures DirtyExactly(m0, m[c := m[c].(value := v)], r, seen + {c}, dirty + [c])
  {
    RecomputedGrows(derive, h, m0, m, r, seen, c, x, v);
    DirtyGrows(m0, m, r, seen, c, dirty, v);
  }

  lemma RecomputedGrows(derive: (FnId, Val, Val) -> Val, h: Heap, m0: Nodes, m: Nodes, r: NodeId, seen: set<NodeId>, c: NodeId, x: NodeId, v: Val)
    requires ValuesOnly(m0, m) && seen <= m0.Keys && Recomputed(derive, h, m0, m, r, seen)
    requires c in m0 && c !in seen && c != r && m0[c].parent == Some(x) && x in seen
    requires forall y | y in seen && y != r :: y in m0 && m0[y].parent.Some? && m0[y].parent.value in seen
    requires v == ValueFrom(derive, h, m[c], m[x].value)
    ensures ValuesOnly(m0, m[c := m[c].(value := v)]) && seen + {c} <= m0.Keys
    ensures Recomputed(derive, h, m0, m[c := m[c].(value := v)], r, seen + {c})
  {
    var m' := m[c := m[c].(value := v)];
    ValuesOnlySet(m0, m, c, v);
    assert m[c] == m0[c];
    forall y | y in m0 && (y !in seen + {c} || y == r) ensures m'[y].value == m0[y].value {
      assert m'[y] == m[y];
    }
    forall y | y in seen + {c} && y != r
      ensures m0[y].parent.Some? && m0[y].parent.value in m0
      ensures m'[y].value == ValueFrom(derive, h, m0[y], m'[m0[y].parent.value].value)
    {
      if y == c {
        assert m'[x] == m[x];
      } else {
        var p := m0[y].parent.value;
        assert m'[y] == m[y] && m'[p] == m[p];
      }
    }
  }

  lemma DirtyGrows(m0: Nodes, m: Nodes, r: NodeId, seen: set<NodeId>, c: NodeId, dirty: seq<NodeId>, v: Val)
    requires ValuesOnly(m0, m) && seen <= m0.Keys && DirtyExactly(m0, m, r, seen, dirty)
    requires c in m0 && c !in seen && c != r && m[c].value == m0[c].value && v != m[c].value
    ensures ValuesOnly(m0, m[c := m[c].(value := v)]) && seen + {c} <= m0.Keys
    ensures DirtyExactly(m0, m[c := m[c].(value := v)], r, seen + {c}, dirty + [c])
  {
    ValuesOnlySet(m0, m, c, v);
  }

  /** Setting one value keeps the other parts of every node. */
  lemma ValuesOnlySet(m0: Nodes, m: Nodes, c: NodeId, v: Val)
    requires ValuesOnly(m0, m) && c in m
    ensures ValuesOnly(m0, m[c := m[c].(value := v)])
  {
  }

  /** Recomputing one more node `c` to the value it holds extends what
      has been recomputed by `c` and leaves the dirty list as it is. */
  lemma RecomputeSame(derive: (FnId, Val, Val) -> Val, h: Heap, m0: Nodes, m: Nodes, r: NodeId, seen: set<NodeId>, c: NodeId, x: NodeId, dirty: seq<NodeId>)
    requires ValuesOnly(m0, m) && seen <= m0.Keys
    requires Recomputed(derive, h, m0, m, r, seen) && DirtyExactly(m0, m, r, seen, dirty)
    requires c in m0 && c !in seen && c != r && m0[c].parent == Some(x) && x in seen
    requires ValueFrom(derive, h, m[c], m[x].value) == m[c].value
    ensures m[c].value == m0[c].value && seen + {c} <= m0.Keys
    ensures Recomputed(derive, h, m0, m, r, seen + {c}) && DirtyExactly(m0, m, r, seen + {c}, dirty)
  {
    assert m[c] == m0[c];
  }

  /** One step of the inner loop of `digest`: push the property of `x` at
      position `k - 1` and recompute it from the value of `x`; if its value
      changes, it is dirty. */
  method DigestChild(derive: (FnId, Val, Val) -> Val, h: Heap, ghost m0: Nodes, ghost r: NodeId, x: NodeId, k: nat,
                     m: Nodes, dirty: seq<NodeId>, stack: seq<NodeId>, ghost seen: set<NodeId>, ghost done: set<NodeId>,
                     ghost order: seq<NodeId>)
    returns (m': Nodes, dirty': seq<NodeId>, stack': seq<NodeId>, ghost seen': set<NodeId>, ghost order': seq<NodeId>)
    requires Linked(m0) && ValuesOnly(m0, m) && WalkAt(m0, r, x, k, stack, seen, done) && 0 < k
    requires Recomputed(derive, h, m0, m, r, seen) && DirtyExactly(m0, m, r, seen, dirty)
    requires forall i | 0 <= i < |order| :: order[i] in seen
    requires dirty == ChangedIn(m0, m, order)
    ensures ValuesOnly(m0, m') && WalkAt(m0, r, x, k - 1, stack', seen', done)
    ensures Recomputed(derive, h, m0, m', r, seen') && DirtyExactly(m0, m', r, seen', dirty')
    ensures stack' == stack + [m0[x].properties[k - 1]] && order' == order + [m0[x].properties[k - 1]]
    ensures forall i | 0 <= i < |order'| :: order'[i] in seen'
    ensures dirty' == ChangedIn(m0, m', order')
  {
    hide ChangedIn, Recomputed, DirtyExactly;
    NextChild(m0, r, x, k, stack, seen, done);
    PushStep(m0, r, x, k, stack, seen, done);
    var c := m[x].properties[k - 1];
    var v := ValueFrom(derive, h, m[c], m[x].value);
    order' := order + [c];
    if m[c].value != v {
      RecomputeChanged(derive, h, m0, m, r, seen, c, x, dirty, v);
      m', dirty' := m[c := m[c].(value := v)], dirty + [c];
    } else {
      RecomputeSame(derive, h, m0, m, r, seen, c, x, dirty);
      m', dirty' := m, dirty;
    }
    ChildOrder(m0, m, m', seen, order, c, dirty, dirty');
    stack', seen' := stack + [c], seen + {c};
  }

  lemma AppendOne(a: seq<NodeId>, b: seq<NodeId>, c: NodeId)
    ensures (a + b) + [c] == a + (b + [c])
  {
  }

  lemma Regroup(a: seq<NodeId>, b: seq<NodeId>, c: seq<NodeId>, d: seq<NodeId>)
    ensures (a + b) + (c + d) == a + ((b + c) + d)
  {
  }

  /** Popping `x` and pushing its properties from the last to the first
      keeps the walk order: what was recomputed and what is pending still
      make up the whole order. */
  lemma PopOrder(m0: Nodes, x: NodeId, rest: seq<NodeId>, before: seq<NodeId>, order: seq<NodeId>, stack: seq<NodeId>,
                 whole: seq<NodeId>)
    requires Linked(m0) && x in m0 && forall i | 0 <= i < |rest| :: rest[i] in m0
    requires before + PendingOrder(m0, rest + [x]) == whole
    requires stack == rest + Reversed(m0[x].properties) && order == before + Reversed(m0[x].properties)
    ensures forall i | 0 <= i < |stack| :: stack[i] in m0
    ensures order + PendingOrder(m0, stack) == whole
  {
    var ps := m0[x].properties;
    assert forall i | 0 <= i < |ps| :: ps[i] in m0 && ps[i] > x;
    hide Linked;
    assert (rest + [x])[..|rest|] == rest;
    PendingPushed(m0, x, ps, rest);
    assert PendingOrder(m0, rest + [x]) == Reversed(ps) + OrderBelow(m0, x, ps) + PendingOrder(m0, rest);
    Regroup(before, Reversed(ps), OrderBelow(m0, x, ps), PendingOrder(m0, rest));
  }

  /** `digest(root)`: pops nodes off an explicit stack; for each, walks its
      properties from the last to the first, pushes each one and recomputes
      it from the popped node's value, and collects the properties whose
      value changed. The nodes' values are updated in `m`. */
  method DigestFrom(derive: (FnId, Val, Val) -> Val, h: Heap, m0: Nodes, r: NodeId) returns (m: Nodes, dirty: seq<NodeId>)
    requires Linked(m0) && r in m0
    ensures ValuesOnly(m0, m) && Reach(m0, r) <= m0.Keys
    ensures Recomputed(derive, h, m0, m, r, Reach(m0, r)) && DirtyExactly(m0, m, r, Reach(m0, r), dirty)
    ensures forall i | 0 <= i < |dirty| :: dirty[i] in m
    ensures dirty == ChangedIn(m0, m, DigestOrder(m0, r))
  {
    hide ChangedIn, Reversed, DigestOrder, PendingOrder, Recomputed, DirtyExactly, Walk, Linked, Reach;
    DigestStart(derive, h, m0, r);
    m := m0;
    var stack := [r];
    dirty := [];
    ghost var seen: set<NodeId> := {r};
    ghost var done: set<NodeId> := {};
    ghost var order: seq<NodeId> := [];
    while stack != []
      invariant ValuesOnly(m0, m) && seen <= m0.Keys && forall i | 0 <= i < |stack| :: stack[i] in m0
      invariant Walk(m0, r, stack, seen, done)
      invariant Recomputed(derive, h, m0, m, r, seen) && DirtyExactly(m0, m, r, seen, dirty)
      invariant forall i | 0 <= i < |order| :: order[i] in seen
      invariant dirty == ChangedIn(m0, m, order)
      invariant order + PendingOrder(m0, stack) == DigestOrder(m0, r)
      decreases m0.Keys - done
    {
      m, dirty, stack, seen, done, order := DigestPop(derive, h, m0, r, m, dirty, stack, seen, done, order);
    }
    DigestEnd(derive, h, m0, r, m, dirty, seen, done, order);
  }

  /** The state `digest(r)` starts from: only `r` pushed, nothing
      recomputed, nothing dirty, the whole walk pending. */
  lemma DigestStart(derive: (FnId, Val, Val) -> Val, h: Heap, m0: Nodes, r: NodeId)
    requires Linked(m0) && r in m0
    ensures ValuesOnly(m0, m0) && {r} <= m0.Keys && Walk(m0, r, [r], {r}, {})
    ensures Recomputed(derive, h, m0, m0, r, {r}) && DirtyExactly(m0, m0, r, {r}, [])
    ensures [] == ChangedIn(m0, m0, [])
    ensures [] + PendingOrder(m0, [r]) == DigestOrder(m0, r)
  {
    hide DigestOrder, PendingOrder, Linked;
    PendingStart(m0, r);
  }

  /** With only `r` pushed, the whole walk below `r` is pending. */
  lemma PendingStart(m0: Nodes, r: NodeId)
    requires Linked(m0) && r in m0
    ensures [] + PendingOrder(m0, [r]) == DigestOrder(m0, r)
  {
    hide DigestOrder, Linked;
    assert [r][..0] == [];
    assert PendingOrder(m0, [r]) == DigestOrder(m0, r) + PendingOrder(m0, []);
  }

  /** Once the stack is empty, the walk has recomputed everything below
      `r` and the dirty list follows the whole walk order. */
  lemma DigestEnd(derive: (FnId, Val, Val) -> Val, h: Heap, m0: Nodes, r: NodeId, m: Nodes, dirty: seq<NodeId>,
                  seen: set<NodeId>, done: set<NodeId>, order: seq<NodeId>)
    requires Linked(m0) && r in m0 && ValuesOnly(m0, m) && seen <= m0.Keys && Walk(m0, r, [], seen, done)
    requires Recomputed(derive, h, m0, m, r, seen) && DirtyExactly(m0, m, r, seen, dirty)
    requires forall i | 0 <= i < |order| :: order[i] in seen
    requires dirty == ChangedIn(m0, m, order) && order + PendingOrder(m0, []) == DigestOrder(m0, r)
    ensures Reach(m0, r) <= m0.Keys
    ensures Recomputed(derive, h, m0, m, r, Reach(m0, r)) && DirtyExactly(m0, m, r, Reach(m0, r), dirty)
    ensures forall i | 0 <= i < |dirty| :: dirty[i] in m
    ensures dirty == ChangedIn(m0, m, DigestOrder(m0, r))
  {
    assert order + PendingOrder(m0, []) == order;
    WalkReachesAll(m0, r, seen, done);
  }

  /** A walk whose stack is empty has pushed exactly the nodes hanging
      below its root. */
  lemma WalkReachesAll(m0: Nodes, r: NodeId, seen: set<NodeId>, done: set<NodeId>)
    requires Walk(m0, r, [], seen, done)
    ensures seen == Reach(m0, r)
  {
    forall y | y in m0 && Attached(m0, y, r) ensures y in seen {
      ClosedSetHoldsReach(m0, r, seen, y);
    }
  }

  /** One turn of the outer loop of `digest`: pop a node and walk its
      properties. */
  method DigestPop(derive: (FnId, Val, Val) -> Val, h: Heap, ghost m0: Nodes, ghost r: NodeId,
                   m: Nodes, dirty: seq<NodeId>, stack: seq<NodeId>, ghost seen: set<NodeId>, ghost done: set<NodeId>,
                   ghost order: seq<NodeId>)
    returns (m': Nodes, dirty': seq<NodeId>, stack': seq<NodeId>, ghost seen': set<NodeId>, ghost done': set<NodeId>,
             ghost order': seq<NodeId>)
    requires Linked(m0) && r in m0 && stack != []
    requires ValuesOnly(m0, m) && Walk(m0, r, stack, seen, done)
    requires Recomputed(derive, h, m0, m, r, seen) && DirtyExactly(m0, m, r, seen, dirty)
    requires forall i | 0 <= i < |order| :: order[i] in seen
    requires dirty == ChangedIn(m0, m, order)
    requires order + PendingOrder(m0, stack) == DigestOrder(m0, r)
    ensures ValuesOnly(m0, m') && Walk(m0, r, stack', seen', done')
    ensures Recomputed(derive, h, m0, m', r, seen') && DirtyExactly(m0, m', r, seen', dirty')
    ensures forall i | 0 <= i < |order'| :: order'[i] in seen'
    ensures dirty' == ChangedIn(m0, m', order')
    ensures order' + PendingOrder(m0, stack') == DigestOrder(m0, r)
    ensures m0.Keys - done' < m0.Keys - done
    ensures seen' <= m0.Keys && forall i | 0 <= i < |stack'| :: stack'[i] in m0
  {
    hide ChangedIn, Reversed, DigestOrder, Recomputed, DirtyExactly;
    PopStep(m0, r, stack, seen, done);
    var x := stack[|stack| - 1];
    stack' := stack[..|stack| - 1];
    done' := done + {x};
    ghost var before := order;
    m', dirty', stack', seen', order' := DigestChildren(derive, h, m0, r, x, m, dirty, stack', seen, done', order);
    PopOrder(m0, x, stack[..|stack| - 1], before, order', stack', DigestOrder(m0, r));
  }

  /** The inner loop of `digest` for the popped node `x`. */
  method DigestChildren(derive: (FnId, Val, Val) -> Val, h: Heap, ghost m0: Nodes, ghost r: NodeId, x: NodeId,
                        m: Nodes, dirty: seq<NodeId>, stack: seq<NodeId>, ghost seen: set<NodeId>, ghost done: set<NodeId>,
                        ghost order: seq<NodeId>)
    returns (m': Nodes, dirty': seq<NodeId>, stack': seq<NodeId>, ghost seen': set<NodeId>, ghost order': seq<NodeId>)
    requires Linked(m0) && ValuesOnly(m0, m) && x in m0
    requires WalkAt(m0, r, x, |m0[x].properties|, stack, seen, done)
    requires Recomputed(derive, h, m0, m, r, seen) && DirtyExactly(m0, m, r, seen, dirty)
    requires forall i | 0 <= i < |order| :: order[i] in seen
    requires dirty == ChangedIn(m0, m, order)
    ensures ValuesOnly(m0, m') && Walk(m0, r, stack', seen', done)
    ensures Recomputed(derive, h, m0, m', r, seen') && DirtyExactly(m0, m', r, seen', dirty')
    ensures stack' == stack + Reversed(m0[x].properties) && order' == order + Reversed(m0[x].properties)
    ensures forall i | 0 <= i < |order'| :: order'[i] in seen'
    ensures dirty' == ChangedIn(m0, m', order')
  {
    hide ChangedIn, Reversed, Recomputed, DirtyExactly, Linked;
    m', dirty', stack', seen', order' := m, dirty, stack, seen, order;
    ghost var ps := m0[x].properties;
    var k: nat := |m[x].properties|;
    assert ps[k..] == [];
    while k > 0
      invariant ValuesOnly(m0, m') && WalkAt(m0, r, x, k, stack', seen', done)
      invariant Recomputed(derive, h, m0, m', r, seen') && DirtyExactly(m0, m', r, seen', dirty')
      invariant stack' == stack + Reversed(ps[k..]) && order' == order + Reversed(ps[k..])
      invariant forall i | 0 <= i < |order'| :: order'[i] in seen'
      invariant dirty' == ChangedIn(m0, m', order')
    {
      ReversedNext(ps, k);
      AppendOne(stack, Reversed(ps[k..]), ps[k - 1]);
      AppendOne(order, Reversed(ps[k..]), ps[k - 1]);
      m', dirty', stack', seen', order' := DigestChild(derive, h, m0, r, x, k, m', dirty', stack', seen', done, order');
      k := k - 1;
    }
    assert ps[0..] == ps;
    EndStep(m0, r, x, stack', seen', done);
  }

  /** The invariant of a graph: the links, kinds and names of its nodes are
      coherent, node ids, object ids and wrapper serials are below their
      counters, the heap is closed, and every node value, and every value a
      lifted function gives, is a value of the heap. */
  ghost predicate Coherent(m: Nodes, h: Heap, derive: (FnId, Val, Val) -> Val, nextNode: nat, nextObj: nat, nextWrapper: nat)
  {
    Linked(m) && Kinds(m) && UniqueNames(m) &&
    (forall x | x in m :: x < nextNode) &&
    WrappersBelow(m, nextWrapper) &&
    Closed(h) &&
    (forall o | o in h :: o < nextObj) &&
    (forall x | x in m :: InHeap(h, m[x].value)) &&
    (forall f, a, b :: InHeap(h, derive(f, a, b)))
  }

  /** `digest` keeps a graph coherent. */
  lemma DigestKeeps(derive: (FnId, Val, Val) -> Val, h: Heap, m0: Nodes, m: Nodes, r: NodeId, n: nat, o: nat, w: nat)
    requires Coherent(m0, h, derive, n, o, w)
    requires ValuesOnly(m0, m) && Reach(m0, r) <= m0.Keys && Recomputed(derive, h, m0, m, r, Reach(m0, r))
    ensures Coherent(m, h, derive, n, o, w)
  {
    ShapeKeeps(m0, m);
    forall y | y in m ensures InHeap(h, m[y].value) {
      RecomputedInHeap(derive, h, m0, m, r, Reach(m0, r), y);
    }
  }

  /** Replacing the observers of `x` keeps a graph coherent when every new
      observer was already there or is a wrapper below the new counter. */
  lemma ObserversKeep(m: Nodes, h: Heap, derive: (FnId, Val, Val) -> Val, n: nat, o: nat, w: nat, w': nat,
                      x: NodeId, obs: seq<ObserverId>)
    requires Coherent(m, h, derive, n, o, w) && w <= w' && x in m
    requires forall y | y in obs :: y in m[x].observers || (y.Wrapper? ==> y.serial < w')
    ensures Coherent(m[x := m[x].(observers := obs)], h, derive, n, o, w')
  {
    var m' := m[x := m[x].(observers := obs)];
    ShapeKeeps(m, m');
    forall y, i | y in m' && 0 <= i < |m'[y].observers| && m'[y].observers[i].Wrapper?
      ensures m'[y].observers[i].serial < w'
    {
      if y == x {
        var b := obs[i];
        if b in m[x].observers {
          var j :| 0 <= j < |m[x].observers| && m[x].observers[j] == b;
        }
      }
    }
  }

  /** `dispose` keeps a graph coherent: removing the first occurrence of a
      property is unlinking it, and removing what is not there changes
      nothing. */
  lemma DisposeKeeps(m: Nodes, h: Heap, derive: (FnId, Val, Val) -> Val, n: nat, o: nat, w: nat, q: NodeId, x: NodeId)
    requires q in m && Coherent(m, h, derive, n, o, w)
    ensures Coherent(m[q := m[q].(properties := RemoveFirst(m[q].properties, x))], h, derive, n, o, w)
  {
    var ps := m[q].properties;
    if x in ps {
      UnlinkKeeps(m, h, derive, n, o, w, q, IndexOf(ps, x));
      assert Unlink(m, q, IndexOf(ps, x)) == m[q := m[q].(properties := RemoveFirst(ps, x))];
    } else {
      assert m == m[q := m[q].(properties := RemoveFirst(ps, x))];
    }
  }

  /** What `updateValue(target, newValue, partial)` does to a target that
      holds `cur`: nothing, report a change without one (a function that
      returned `undefined` is taken to have mutated the value), replace the
      value, or merge the new object into the old one. */
  datatype Effect = Unchanged | Touched | Replaced(v: Val) | Merged(target: ObjId, source: ObjId)

  /** `updateValue`: `undefined` and the current value itself change
      nothing; a function is applied to the current value and its result
      used in its place, never merged; two distinct objects are merged when
      `partial` holds; anything else replaces the value. */
  function UpdateEffect(cur: Val, upd: Updater, partial: bool): (e: Effect)
    ensures e.Unchanged? <==> (upd.Give? && (upd.v == Undef || upd.v == cur)) ||
                              (upd.Call? && (Fn(upd.f) == cur || (upd.ret != Undef && upd.ret == cur)))
    ensures e.Touched? <==> upd.Call? && Fn(upd.f) != cur && upd.ret == Undef
    ensures e.Merged? <==> partial && upd.Give? && IsObject(cur) && IsObject(upd.v) && upd.v != cur
    ensures e.Merged? ==> cur == Ref(e.target) && upd.v == Ref(e.source)
    ensures e.Replaced? ==> e.v != Undef && e.v != cur && (e.v == if upd.Give? then upd.v else upd.ret)
    decreases upd.Call?
  {
    match upd
    case Give(v) =>
      if v == Undef || v == cur then Unchanged
      else if partial && IsObject(cur) && IsObject(v) then Merged(cur.o, v.o)
      else Replaced(v)
    case Call(f, ret) =>
      if Fn(f) == cur then Unchanged
      else if ret == Undef then Touched
      else UpdateEffect(cur, Give(ret), false)
  }

  /** The value a target holds after an update that is not a merge. */
  function EffectValue(e: Effect, cur: Val): Val
  {
    if e.Replaced? then e.v else cur
  }

  /** Applying the same value twice: the second update changes nothing. */
  lemma UpdateSettles(cur: Val, upd: Updater, partial: bool, again: bool)
    requires UpdateEffect(cur, upd, partial).Replaced?
    ensures UpdateEffect(UpdateEffect(cur, upd, partial).v, Give(UpdateEffect(cur, upd, partial).v), again).Unchanged?
  {
  }

  /** A function's result replaces the value whether or not the update is
      partial: `partial` is not passed on. */
  lemma CallNeverMerges(cur: Val, f: FnId, ret: Plain)
    ensures UpdateEffect(cur, Call(f, ret), true) == UpdateEffect(cur, Call(f, ret), false)
    ensures !UpdateEffect(cur, Call(f, ret), true).Merged?
  {
  }

  /** The values an updater hands over are values of the heap. */
  predicate UpdaterIn(h: Heap, upd: Updater)
  {
    match upd
    case Give(v) => InHeap(h, v)
    case Call(_, ret) => InHeap(h, ret)
  }

  /** The state after `updateValue` on node `x` with effect `e`, and its
      return value `changed`: a merge changes objects of the heap, in place,
      and reports whether it changed any field. */
  ghost predicate Applied(e: Effect, x: NodeId, m0: Nodes, h0: Heap, m: Nodes, h: Heap, changed: bool)
    requires x in m0
  {
    match e
    case Unchanged => !changed && m == m0 && h == h0
    case Touched => changed && m == m0 && h == h0
    case Replaced(v) => changed && m == m0[x := m0[x].(value := v)] && h == h0
    case Merged(t, src) =>
      m == m0 && (changed <==> h != h0) &&
      exists visited :: Merge.MergedFrom(h0, h, visited) && t in visited && visited[t] == src &&
                        Merge.CopiedFrom(h0, h, visited, []) && Merge.Reached(h0, h, visited, t)
  }
  /** An update that is not a merge changes at most the value of `x`, to
      the value its effect gives, and leaves the heap alone. */
  lemma AppliedPlain(e: Effect, x: NodeId, m0: Nodes, h0: Heap, m: Nodes, h: Heap, changed: bool)
    requires x in m0 && Applied(e, x, m0, h0, m, h, changed) && !e.Merged?
    ensures h == h0 && ValuesOnly(m0, m) && (changed <==> !e.Unchanged?)
    ensures m[x].value == EffectValue(e, m0[x].value) && forall y | y in m0 && y != x :: m[y] == m0[y]
    ensures m == m0[x := m0[x].(value := EffectValue(e, m0[x].value))]
  {
  }

  /** The shape facts a coherent graph gives. */
  lemma CoherentShape(m: Nodes, h: Heap, derive: (FnId, Val, Val) -> Val, n: nat, o: nat, w: nat)
    requires Coherent(m, h, derive, n, o, w)
    ensures Linked(m) && Kinds(m) && forall y | y in m :: InHeap(h, m[y].value)
  {
  }


  /** Replacing one node value by a value of the heap keeps a graph coherent. */
  lemma SetValueKeeps(m: Nodes, h: Heap, derive: (FnId, Val, Val) -> Val, n: nat, o: nat, w: nat, x: NodeId, v: Val)
    requires Coherent(m, h, derive, n, o, w) && x in m && InHeap(h, v)
    ensures Coherent(m[x := m[x].(value := v)], h, derive, n, o, w)
  {
    var m' := m[x := m[x].(value := v)];
    ShapeKeeps(m, m');
    assert forall y | y in m :: m'[y].observers == m[y].observers;
  }

  /** Changing fields of the heap, keeping its objects and closure, keeps a
      graph coherent. */
  lemma HeapKeeps(m: Nodes, h0: Heap, h: Heap, derive: (FnId, Val, Val) -> Val, n: nat, o: nat, w: nat)
    requires Coherent(m, h0, derive, n, o, w) && h.Keys == h0.Keys && Closed(h)
    ensures Coherent(m, h, derive, n, o, w)
  {
    assert forall v :: InHeap(h0, v) ==> InHeap(h, v);
  }

  /** Writing a value of the heap into a field keeps a graph coherent. */
  lemma SetFieldKeeps(m: Nodes, h: Heap, derive: (FnId, Val, Val) -> Val, n: nat, o: nat, w: nat, q: ObjId, k: string, v: Val)
    requires Coherent(m, h, derive, n, o, w) && q in h && InHeap(h, v)
    ensures Coherent(m, SetField(h, q, k, v), derive, n, o, w)
  {
    var h' := SetField(h, q, k, v);
    forall p, j | p in h' && j in h'[p] ensures InHeap(h', h'[p][j]) {
      assert h'[p][j] == Field(h', p, j);
      if p != q || j != k {
        assert Field(h', p, j) == Field(h, p, j) == h[p][j];
      }
    }
    HeapKeeps(m, h, h', derive, n, o, w);
  }

  /** Allocating an object whose fields are values of the heap, at the
      next object id, keeps a graph coherent. */
  lemma AllocKeeps(m: Nodes, h: Heap, derive: (FnId, Val, Val) -> Val, n: nat, o: nat, w: nat, obj: Obj)
    requires Coherent(m, h, derive, n, o, w) && forall k | k in obj :: InHeap(h, obj[k])
    ensures o !in h && Coherent(m, h[o := obj], derive, n, o + 1, w)
  {
    assert forall v :: InHeap(h, v) ==> InHeap(h[o := obj], v);
  }

  /** The nodes from `x` up to its root: `x`, its parent, and so on. */
  function Ancestors(m: Nodes, x: NodeId): (r: seq<NodeId>)
    requires Linked(m) && x in m
    ensures r != [] && r[0] == x
    ensures forall i | 0 <= i < |r| :: r[i] in m
    ensures m[r[|r| - 1]].parent.None?
    ensures forall i | 0 < i < |r| :: m[r[i - 1]].parent == Some(r[i])
    decreases x
  {
    if m[x].parent.None? then [x] else [x] + Ancestors(m, m[x].parent.value)
  }

  /** The loop of `ObjectProperty.update` that pushes the node and then
      each parent in turn until there is none. */
  method AncestorChain(m: Nodes, x: NodeId) returns (chain: seq<NodeId>)
    requires Linked(m) && x in m
    ensures chain == Ancestors(m, x)
  {
    chain := [];
    var q := Some(x);
    while q.Some?
      invariant q.Some? ==> q.value in m && chain + Ancestors(m, q.value) == Ancestors(m, x)
      invariant q.None? ==> chain == Ancestors(m, x)
      decreases if q.Some? then q.value + 1 else 0
    {
      var y := q.value;
      assert Ancestors(m, y) == [y] + (if m[y].parent.None? then [] else Ancestors(m, m[y].parent.value));
      chain := chain + [y];
      q := m[y].parent;
    }
  }

  /** The objects held by the proper ancestors of `x`. */
  ghost function HeldAbove(m: Nodes, x: NodeId): set<ObjId>
    requires Linked(m) && x in m
    decreases x
  {
    if m[x].parent.None? then {}
    else
      var p := m[x].parent.value;
      (if m[p].value.Ref? then {m[p].value.o} else {}) + HeldAbove(m, p)
  }

  /** Every node in the reach of `r` has an id at least `r`'s. */
  lemma {:induction false} AttachedAbove(m: Nodes, y: NodeId, r: NodeId)
    requires Attached(m, y, r)
    ensures y >= r
    decreases y
  {
    if y != r {
      AttachedAbove(m, m[y].parent.value, r);
    }
  }

  /** The objects above `x` are objects of the heap. */
  lemma {:induction false} HeldInHeap(m: Nodes, h: Heap, x: NodeId)
    requires Linked(m) && x in m && forall z | z in m :: InHeap(h, m[z].value)
    ensures HeldAbove(m, x) <= h.Keys
    decreases x
  {
    if m[x].parent.Some? {
      HeldInHeap(m, h, m[x].parent.value);
    }
  }

  /** The objects above `x` depend only on the values of nodes below `x`
      in id order. */
  lemma {:induction false} HeldAboveSame(m: Nodes, m': Nodes, x: NodeId)
    requires Linked(m) && Linked(m') && ValuesOnly(m, m') && x in m
    requires forall z | z in m && z < x :: m'[z].value == m[z].value
    ensures HeldAbove(m', x) == HeldAbove(m, x)
    decreases x
  {
    if m[x].parent.Some? {
      HeldAboveSame(m, m', m[x].parent.value);
    }
  }
  /** Parents do not change with values, so neither does the chain of
      ancestors. */
  lemma {:induction false} AncestorsSame(m: Nodes, m': Nodes, x: NodeId)
    requires Linked(m) && Linked(m') && ValuesOnly(m, m') && x in m
    ensures Ancestors(m', x) == Ancestors(m, x)
    decreases x
  {
    if m[x].parent.Some? {
      AncestorsSame(m, m', m[x].parent.value);
    }
  }

  /** What a write-back from `x` may change: node values only, and none of
      a node at or past `from`; objects may be added, and only the objects
      held by the proper ancestors of `x` may have their fields changed. */
  ghost predicate OnlyAbove(m0: Nodes, h0: Heap, m: Nodes, h: Heap, x: NodeId, from: NodeId)
    requires Linked(m0) && x in m0
  {
    ValuesOnly(m0, m) && h0.Keys <= h.Keys &&
    (forall y | y in m0 && y >= from :: m[y] == m0[y]) &&
    (forall o | o in h0 && o !in HeldAbove(m0, x) :: h[o] == h0[o])
  }

  /** What is kept through a write-back from `x`. */
  lemma OnlyAboveKeeps(m0: Nodes, h0: Heap, m: Nodes, h: Heap, x: NodeId, from: NodeId)
    requires Linked(m0) && x in m0 && OnlyAbove(m0, h0, m, h, x, from)
    ensures ValuesOnly(m0, m) && h0.Keys <= h.Keys
    ensures forall y | y in m0 && y >= from :: m[y] == m0[y]
  {
  }

  lemma OnlyAboveRefl(m: Nodes, h: Heap, x: NodeId, from: NodeId)
    requires Linked(m) && x in m
    ensures OnlyAbove(m, h, m, h, x, from)
  {
  }

  /** Setting a field of the object the parent of `x` holds. */
  lemma OnlyAboveField(m: Nodes, h: Heap, x: NodeId, name: string, v: Val)
    requires Linked(m) && x in m && m[x].parent.Some?
    requires m[m[x].parent.value].value.Ref? && m[m[x].parent.value].value.o in h
    ensures OnlyAbove(m, h, m, SetField(h, m[m[x].parent.value].value.o, name, v), x, x)
  {
    var q := m[m[x].parent.value].value.o;
    var h' := SetField(h, q, name, v);
    forall o | o in h && o !in HeldAbove(m, x) ensures h'[o] == h[o] {
      assert o != q;
    }
  }

  /** Allocating a fresh object, then giving the parent of `x` a new value. */
  lemma OnlyAboveParentValue(m: Nodes, h: Heap, x: NodeId, o: ObjId, obj: Obj, pv: Val)
    requires Linked(m) && x in m && m[x].parent.Some? && o !in h
    ensures OnlyAbove(m, h, m, h[o := obj], x, x)
    ensures OnlyAbove(m, h, m[m[x].parent.value := m[m[x].parent.value].(value := pv)], h[o := obj], x, x)
  {
    var p := m[x].parent.value;
    ValuesOnlySet(m, m, p, pv);
  }

  /** Allocating a fresh object, then a write-back from the parent of `x`
      that keeps the parent's value. */
  lemma OnlyAboveParent(m0: Nodes, h0: Heap, o: ObjId, obj: Obj, m: Nodes, h: Heap, x: NodeId)
    requires Linked(m0) && x in m0 && m0[x].parent.Some? && o !in h0
    requires HeldAbove(m0, m0[x].parent.value) <= h0.Keys
    requires OnlyAbove(m0, h0[o := obj], m, h, m0[x].parent.value, m0[x].parent.value + 1)
    ensures OnlyAbove(m0, h0, m, h, x, x) && o in h && h[o] == obj
  {
  }

  /** A value update of `x` alone followed by a write-back from `x`. */
  lemma OnlyAboveAfterValue(m0: Nodes, h0: Heap, m1: Nodes, m: Nodes, h: Heap, x: NodeId)
    requires Linked(m0) && Linked(m1) && x in m0 && ValuesOnly(m0, m1)
    requires forall y | y in m0 && y != x :: m1[y] == m0[y]
    requires OnlyAbove(m1, h0, m, h, x, x)
    ensures OnlyAbove(m0, h0, m, h, x, x + 1)
  {
    HeldAboveSame(m0, m1, x);
  }

  /** A field write into an object parent. */
  lemma WroteBackField(m0: Nodes, h0: Heap, obj: ObjId, x: NodeId)
    requires Linked(m0) && Kinds(m0) && x in m0 && m0[x].kind.Named?
    requires m0[m0[x].parent.value].value.Ref? && m0[m0[x].parent.value].value.o in h0
    ensures WroteBack(m0, h0, obj, m0, SetField(h0, m0[m0[x].parent.value].value.o, m0[x].kind.name, m0[x].value), x, Returned(true))
  {
  }

  /** A truthy parent that is not an object. */
  lemma WroteBackTruthy(m0: Nodes, h0: Heap, obj: ObjId, x: NodeId)
    requires Linked(m0) && Kinds(m0) && x in m0 && m0[x].kind.Named?
    requires Truthy(m0[m0[x].parent.value].value) && !m0[m0[x].parent.value].value.Ref?
    ensures WroteBack(m0, h0, obj, m0, h0, x, if m0[m0[x].parent.value].value.Fn? then Returned(true) else Threw(TypeError))
  {
  }

  /** A falsy parent handed the fresh object `obj`. */
  lemma WroteBackFalsy(m0: Nodes, h0: Heap, obj: ObjId, m: Nodes, h: Heap, x: NodeId, r: Completion<bool>)
    requires Linked(m0) && Kinds(m0) && x in m0 && m0[x].kind.Named? && x in m
    requires !Truthy(m0[m0[x].parent.value].value) && m[x] == m0[x]
    requires obj !in h0 && obj in h && h[obj] == map[m0[x].kind.name := m0[x].value]
    requires m0[m0[x].parent.value].kind.Lifted? ==> r == Threw(TypeError)
    requires !m0[m0[x].parent.value].kind.Lifted? ==> m0[x].parent.value in m && m[m0[x].parent.value].value == Ref(obj)
    requires m0[m0[x].parent.value].parent.None? ==> r == Returned(true)
    ensures WroteBack(m0, h0, obj, m, h, x, r)
  {
  }


  /** What writing a property's value back into its parent leaves behind,
      for a property `x` whose parent held `pv` in `m0`: an object parent
      has the field set; a function parent is left alone; another truthy
      parent makes the assignment throw (class code is strict); a falsy
      parent is handed a fresh object `{[name]: value}` through its own
      `update`, which a lifted node does not have. */
  ghost predicate WroteBack(m0: Nodes, h0: Heap, obj: ObjId, m: Nodes, h: Heap, x: NodeId, r: Completion<bool>)
    requires Linked(m0) && Kinds(m0) && x in m0 && m0[x].kind.Named? && x in m
  {
    var p := m0[x].parent.value;
    var pv := m0[p].value;
    var name := m0[x].kind.name;
    var v := m[x].value;
    (pv.Ref? ==> r == Returned(true) && Field(h, pv.o, name) == v) &&
    (pv.Fn? ==> r == Returned(true)) &&
    (Truthy(pv) && !pv.Ref? && !pv.Fn? ==> r == Threw(TypeError)) &&
    (!Truthy(pv) ==>
       obj !in h0 && obj in h && h[obj] == map[name := v] &&
       (m0[p].kind.Lifted? ==> r == Threw(TypeError)) &&
       (!m0[p].kind.Lifted? ==> p in m && m[p].value == Ref(obj)) &&
       (m0[p].parent.None? ==> r == Returned(true)))
  }
  /** Whether a write-back happened as described does not depend on the
      value the property itself held before. */
  lemma WroteBackSame(m0: Nodes, m1: Nodes, h0: Heap, obj: ObjId, m: Nodes, h: Heap, x: NodeId, r: Completion<bool>)
    requires Linked(m0) && Kinds(m0) && x in m0 && m0[x].kind.Named? && x in m
    requires Linked(m1) && Kinds(m1) && ValuesOnly(m0, m1)
    requires forall y | y in m0 && y != x :: m1[y] == m0[y]
    ensures WroteBack(m0, h0, obj, m, h, x, r) == WroteBack(m1, h0, obj, m, h, x, r)
  {
    assert m1[x].parent == m0[x].parent && m1[x].kind == m0[x].kind;
  }


  /** What a refresh after an update leaves behind: the nodes reached from
      `x` are recomputed from `m0`, and the observers of `tail`, from its
      last entry to its first, then those of the changed nodes, from the
      last changed to the first, are called with the new values. */
  ghost predicate Refreshed(derive: (FnId, Val, Val) -> Val, h: Heap, x: NodeId, m0: Nodes, m: Nodes, dirty: seq<NodeId>,
                            notes0: seq<Note>, notes: seq<Note>, tail: seq<NodeId>)
  {
    x in m0 && ValuesOnly(m0, m) && Reach(m0, x) <= m0.Keys &&
    Recomputed(derive, h, m0, m, x, Reach(m0, x)) && DirtyExactly(m0, m, x, Reach(m0, x), dirty) &&
    Linked(m0) && dirty == ChangedIn(m0, m, DigestOrder(m0, x)) &&
    (forall i | 0 <= i < |tail| :: tail[i] in m) &&
    notes == notes0 + Notifications(m, tail) + Notifications(m, dirty)
  }

  /** Flushing the changed nodes of a digest followed by `tail`. */
  lemma RefreshedBy(derive: (FnId, Val, Val) -> Val, h: Heap, x: NodeId, m0: Nodes, m: Nodes, dirty: seq<NodeId>,
                    notes0: seq<Note>, notes: seq<Note>, tail: seq<NodeId>)
    requires x in m0 && ValuesOnly(m0, m) && Reach(m0, x) <= m0.Keys
    requires Recomputed(derive, h, m0, m, x, Reach(m0, x)) && DirtyExactly(m0, m, x, Reach(m0, x), dirty)
    requires Linked(m0) && dirty == ChangedIn(m0, m, DigestOrder(m0, x))
    requires forall i | 0 <= i < |tail| :: tail[i] in m
    requires forall i | 0 <= i < |dirty + tail| :: (dirty + tail)[i] in m
    requires notes == notes0 + Notifications(m, dirty + tail)
    ensures Refreshed(derive, h, x, m0, m, dirty, notes0, notes, tail)
  {
    hide ChangedIn, DigestOrder, Recomputed;
    NotificationsAppend(m, dirty, tail);
  }

  /** `flush(dirty)`: walks the dirty list backwards and calls every
      observer of each entry, backwards, with the entry's value; the calls
      are appended to `notes0`. */
  method FlushFrom(m: Nodes, dirty: seq<NodeId>, notes0: seq<Note>) returns (notes: seq<Note>)
    requires forall i | 0 <= i < |dirty| :: dirty[i] in m
    ensures notes == notes0 + Notifications(m, dirty)
  {
    notes := notes0;
    var i := |dirty|;
    while i > 0
      invariant 0 <= i <= |dirty|
      invariant notes == notes0 + Notifications(m, dirty[i..])
    {
      i := i - 1;
      var item := dirty[i];
      var v := m[item].value;
      var obs := m[item].observers;
      var e := |obs|;
      while e > 0
        invariant 0 <= e <= |obs|
        invariant notes == notes0 + Notifications(m, dirty[i + 1..]) + ObserverNotes(item, obs[e..], v)
      {
        e := e - 1;
        assert obs[e..][1..] == obs[e + 1..];
        notes := notes + [Note(item, obs[e], v)];
      }
      assert dirty[i..][1..] == dirty[i + 1..];
    }
  }

  /** What `ObjectProperty.update` on `x` does before any refresh, for the
      effect `e` of its `updateValue`: nothing when `e` changes nothing;
      otherwise `x` takes the value `e` gives and that value is written back
      into the parent (the fresh object a falsy parent is handed being
      allocated at `o0`). Only what a write-back from `x` may change
      changes, and `x` itself only by `e`. */
  ghost predicate PropertyUpdated(e: Effect, m0: Nodes, h0: Heap, o0: ObjId, m: Nodes, h: Heap, x: NodeId, r: Completion<bool>)
    requires Linked(m0) && Kinds(m0) && x in m0 && m0[x].kind.Named?
  {
    OnlyAbove(m0, h0, m, h, x, x + 1) && x in m &&
    (e.Unchanged? ==> r == Returned(false) && m == m0 && h == h0) &&
    (!e.Unchanged? ==>
       r != Returned(false) && m[x].value == EffectValue(e, m0[x].value) && WroteBack(m0, h0, o0, m, h, x, r))
  }

  /** The two ways a property update can end, as `PropertyUpdated` states them. */
  lemma PropertyUpdatedBy(e: Effect, m0: Nodes, h0: Heap, o0: ObjId, m: Nodes, h: Heap, x: NodeId, r: Completion<bool>)
    requires Linked(m0) && Kinds(m0) && x in m0 && m0[x].kind.Named?
    requires OnlyAbove(m0, h0, m, h, x, x + 1) && x in m
    requires e.Unchanged? ==> r == Returned(false) && m == m0 && h == h0
    requires !e.Unchanged? ==>
               (r.Returned? ==> r.value) && m[x].value == EffectValue(e, m0[x].value) && WroteBack(m0, h0, o0, m, h, x, r)
    ensures PropertyUpdated(e, m0, h0, o0, m, h, x, r)
  {
  }

  /** The nodes after a property update differ from the nodes before in
      values only. */
  lemma PropertyUpdatedValuesOnly(e: Effect, m0: Nodes, h0: Heap, o0: ObjId, m: Nodes, h: Heap, x: NodeId, r: Completion<bool>)
    requires Linked(m0) && Kinds(m0) && x in m0 && m0[x].kind.Named?
    requires PropertyUpdated(e, m0, h0, o0, m, h, x, r)
    ensures ValuesOnly(m0, m)
  {
  }

  /** `updateValue(target, newValue, partial)` on node `x` of a coherent
      graph's nodes `m0` and heap `h0`. A function's result is handed to
      `updateValue` again, without `partial`. */
  method UpdateValueIn(derive: (FnId, Val, Val) -> Val, m0: Nodes, h0: Heap, ghost n: nat, ghost o: nat, ghost w: nat,
                       x: NodeId, upd: Updater, partial: bool)
    returns (m: Nodes, h: Heap, changed: bool)
    requires Coherent(m0, h0, derive, n, o, w) && x in m0 && UpdaterIn(h0, upd)
    ensures Coherent(m, h, derive, n, o, w)
    ensures Applied(UpdateEffect(m0[x].value, upd, partial), x, m0, h0, m, h, changed)
    decreases upd.Call?
  {
    m, h := m0, h0;
    if upd.Give? && upd.v == Undef {
      return m, h, false;
    }
    var cur := m[x].value;
    if (upd.Give? && upd.v == cur) || (upd.Call? && Fn(upd.f) == cur) {
      return m, h, false;
    }
    if upd.Call? {
      if upd.ret == Undef {
        return m, h, true;
      }
      m, h, changed := UpdateValueIn(derive, m0, h0, n, o, w, x, Give(upd.ret), false);
      return;
    }
    if partial && IsObject(cur) && IsObject(upd.v) {
      var visited;
      h, changed, visited := Merge.MergeObjects(h0, cur.o, upd.v.o);
      HeapKeeps(m0, h0, h, derive, n, o, w);
      return;
    }
    SetValueKeeps(m0, h0, derive, n, o, w, x, upd.v);
    m := m0[x := m0[x].(value := upd.v)];
    changed := true;
  }

  /** After `updateValue` changed property `x`: its new value is written
      into the parent's value, an object's field being set in place. A
      falsy parent is handed a fresh object `{[name]: value}`, allocated at
      `o0`, through its own `update` without refresh: an `ObjectProperty`
      parent writes it back in turn; the value of a lifted node has no
      `update`; an error thrown above is passed on. */
  method WriteBackIn(derive: (FnId, Val, Val) -> Val, m0: Nodes, h0: Heap, ghost n: nat, o0: ObjId, ghost w: nat, x: NodeId)
    returns (m: Nodes, h: Heap, o: ObjId, r: Completion<bool>)
    requires Coherent(m0, h0, derive, n, o0, w) && x in m0 && m0[x].kind.Named?
    ensures Coherent(m, h, derive, n, o, w) && o0 <= o
    ensures OnlyAbove(m0, h0, m, h, x, x)
    ensures r.Returned? ==> r.value
    ensures r.Threw? ==> r.error == TypeError
    ensures WroteBack(m0, h0, o0, m, h, x, r)
    decreases x, 1
  {
    CoherentShape(m0, h0, derive, n, o0, w);
    var p := m0[x].parent.value;
    var pv := m0[p].value;
    var name := m0[x].kind.name;
    var v := m0[x].value;
    assert p in m0 && p < x && InHeap(h0, v) && InHeap(h0, pv);
    assert m0[p].kind.Root? || m0[p].kind.Item? <==> m0[p].parent.None?;
    hide Coherent;
    hide OnlyAbove;
    hide WroteBack;
    m, h, o := m0, h0, o0;
    if pv.Ref? {
      SetFieldKeeps(m0, h0, derive, n, o0, w, pv.o, name, v);
      OnlyAboveField(m0, h0, x, name, v);
      WroteBackField(m0, h0, o0, x);
      h := SetField(h0, pv.o, name, v);
      return m, h, o, Returned(true);
    }
    if Truthy(pv) {
      r := if pv.Fn? then Returned(true) else Threw(TypeError);
      OnlyAboveRefl(m0, h0, x, x);
      WroteBackTruthy(m0, h0, o0, x);
      return;
    }
    if m0[p].kind.Named? {
      m, h, o, r := WriteBackNamed(derive, m0, h0, n, o0, w, x);
    } else {
      m, h, o, r := WriteBackFresh(derive, m0, h0, n, o0, w, x);
    }
  }

  /** The end of `WriteBackIn` for a falsy parent value when the parent is
      not an `ObjectProperty`. */
  method WriteBackFresh(derive: (FnId, Val, Val) -> Val, m0: Nodes, h0: Heap, ghost n: nat, o0: ObjId, ghost w: nat, x: NodeId)
    returns (m: Nodes, h: Heap, o: ObjId, r: Completion<bool>)
    requires Coherent(m0, h0, derive, n, o0, w) && x in m0 && m0[x].kind.Named?
    requires !Truthy(m0[m0[x].parent.value].value) && !m0[m0[x].parent.value].kind.Named?
    ensures Coherent(m, h, derive, n, o, w) && o0 <= o
    ensures OnlyAbove(m0, h0, m, h, x, x)
    ensures r.Returned? ==> r.value
    ensures r.Threw? ==> r.error == TypeError
    ensures WroteBack(m0, h0, o0, m, h, x, r)
    decreases x, 0
  {
    CoherentShape(m0, h0, derive, n, o0, w);
    var p := m0[x].parent.value;
    var pv := m0[p].value;
    var name := m0[x].kind.name;
    var v := m0[x].value;
    assert p in m0 && p < x && InHeap(h0, v) && InHeap(h0, pv);
    assert m0[p].kind.Root? || m0[p].kind.Item? <==> m0[p].parent.None?;
    hide Coherent;
    hide OnlyAbove;
    hide WroteBack;
    m, h, o := m0, h0, o0;
    var obj := map[name := v];
    AllocKeeps(m0, h0, derive, n, o0, w, obj);
    var h1 := h0[o0 := obj];
    o := o0 + 1;
    if m0[p].kind.Lifted? {
      h, r := h1, Threw(TypeError);
      OnlyAboveParentValue(m0, h0, x, o0, obj, pv);
    } else {
      var m1, h2, _ := UpdateValueIn(derive, m0, h1, n, o, w, p, Give(Ref(o0)), false);
      AppliedPlain(Replaced(Ref(o0)), p, m0, h1, m1, h2, true);
      m, h, r := m1, h2, Returned(true);
      OnlyAboveParentValue(m0, h0, x, o0, obj, Ref(o0));
    }
    OnlyAboveKeeps(m0, h0, m, h, x, x);
    WroteBackFalsy(m0, h0, o0, m, h, x, r);
  }

  /** The end of `WriteBackIn` for a falsy parent value when the parent is
      an `ObjectProperty`, which writes the new object back in turn. */
  method WriteBackNamed(derive: (FnId, Val, Val) -> Val, m0: Nodes, h0: Heap, ghost n: nat, o0: ObjId, ghost w: nat, x: NodeId)
    returns (m: Nodes, h: Heap, o: ObjId, r: Completion<bool>)
    requires Coherent(m0, h0, derive, n, o0, w) && x in m0 && m0[x].kind.Named?
    requires !Truthy(m0[m0[x].parent.value].value) && m0[m0[x].parent.value].kind.Named?
    ensures Coherent(m, h, derive, n, o, w) && o0 <= o
    ensures OnlyAbove(m0, h0, m, h, x, x)
    ensures r.Returned? ==> r.value
    ensures r.Threw? ==> r.error == TypeError
    ensures WroteBack(m0, h0, o0, m, h, x, r)
    decreases x, 0
  {
    CoherentShape(m0, h0, derive, n, o0, w);
    var p := m0[x].parent.value;
    var pv := m0[p].value;
    var name := m0[x].kind.name;
    var v := m0[x].value;
    assert p in m0 && p < x && InHeap(h0, v) && InHeap(h0, pv);
    assert m0[p].kind.Root? || m0[p].kind.Item? <==> m0[p].parent.None?;
    hide Coherent;
    hide OnlyAbove;
    hide WroteBack;
    m, h, o := m0, h0, o0;
    var obj := map[name := v];
    AllocKeeps(m0, h0, derive, n, o0, w, obj);
    var h1 := h0[o0 := obj];
    o := o0 + 1;
    HeldInHeap(m0, h0, p);
    var m2, h2, _, o2, res, _, _ := UpdatePropertyIn(derive, m0, h1, [], n, o, w, p, Give(Ref(o0)), false);
    m, h, o := m2, h2, o2;
    r := if res.Threw? then res else Returned(true);
    OnlyAboveParent(m0, h0, o0, obj, m, h, x);
    OnlyAboveKeeps(m0, h0, m, h, x, x);
    WroteBackFalsy(m0, h0, o0, m, h, x, r);
  }

  /** `update(updater, autoRefresh)` of an `ObjectProperty` `x`, on a
      coherent graph's nodes and heap, with `o0` the next free object id
      and `notes0` the observer calls so far: nothing more happens when
      `updateValue` reports no change; otherwise the value is written back
      into the parent's value (leaving the nodes `settled`) and, with
      `autoRefresh`, `x` is digested and the changed nodes are flushed,
      followed by `x` itself and each of its ancestors. */
  method UpdatePropertyIn(derive: (FnId, Val, Val) -> Val, m0: Nodes, h0: Heap, notes0: seq<Note>,
                          ghost n: nat, o0: ObjId, ghost w: nat, x: NodeId, upd: Updater, autoRefresh: bool)
    returns (m: Nodes, h: Heap, notes: seq<Note>, o: ObjId, r: Completion<bool>, ghost settled: Nodes, ghost dirty: seq<NodeId>)
    requires Coherent(m0, h0, derive, n, o0, w) && x in m0 && m0[x].kind.Named? && UpdaterIn(h0, upd)
    ensures Coherent(m, h, derive, n, o, w) && o0 <= o
    ensures r.Threw? ==> r.error == TypeError
    ensures PropertyUpdated(UpdateEffect(m0[x].value, upd, false), m0, h0, o0, settled, h, x, r)
    ensures r == Returned(true) && autoRefresh ==>
              Refreshed(derive, h, x, settled, m, dirty, notes0, notes, Ancestors(m0, x))
    ensures !(r == Returned(true) && autoRefresh) ==> m == settled && notes == notes0
    decreases x, 2
  {
    CoherentShape(m0, h0, derive, n, o0, w);
    ghost var e := UpdateEffect(m0[x].value, upd, false);
    hide Coherent;
    hide OnlyAbove;
    hide WroteBack;
    hide Applied;
    hide Refreshed;
    hide PropertyUpdated;
    notes, dirty := notes0, [];
    var m1, h1, changed := UpdateValueIn(derive, m0, h0, n, o0, w, x, upd, false);
    AppliedPlain(e, x, m0, h0, m1, h1, changed);
    if !changed {
      OnlyAboveRefl(m0, h0, x, x + 1);
      PropertyUpdatedBy(e, m0, h0, o0, m1, h1, x, Returned(false));
      return m1, h1, notes, o0, Returned(false), m1, dirty;
    }
    CoherentShape(m1, h1, derive, n, o0, w);
    m, h, o, r := WriteBackIn(derive, m1, h1, n, o0, w, x);
    OnlyAboveKeeps(m1, h1, m, h, x, x);
    WroteBackSame(m0, m1, h0, o0, m, h, x, r);
    OnlyAboveAfterValue(m0, h0, m1, m, h, x);
    PropertyUpdatedBy(e, m0, h0, o0, m, h, x, r);
    settled := m;
    if r == Returned(true) && autoRefresh {
      CoherentShape(m, h, derive, n, o, w);
      var chain := AncestorChain(m, x);
      AncestorsSame(m0, m, x);
      m, dirty, notes := RefreshFrom(derive, h, m, x, chain, notes0, n, o, w);
    }
  }



  /** `digest(x)` of a coherent graph's nodes, then `flush` of the changed
      nodes followed by `tail`, appending the calls to `notes0`. */
  method RefreshFrom(derive: (FnId, Val, Val) -> Val, h: Heap, m0: Nodes, x: NodeId, tail: seq<NodeId>, notes0: seq<Note>,
                     ghost n: nat, ghost o: nat, ghost w: nat)
    returns (m: Nodes, dirty: seq<NodeId>, notes: seq<Note>)
    requires Coherent(m0, h, derive, n, o, w) && x in m0 && forall i | 0 <= i < |tail| :: tail[i] in m0
    ensures Coherent(m, h, derive, n, o, w)
    ensures Refreshed(derive, h, x, m0, m, dirty, notes0, notes, tail)
    ensures |dirty| > 0 <==> exists y | y in Reach(m0, x) && y != x :: m[y].value != m0[y].value
  {
    hide ChangedIn, DigestOrder, Refreshed, Recomputed;
    m, dirty := DigestFrom(derive, h, m0, x);
    DigestKeeps(derive, h, m0, m, x, n, o, w);
    var all := dirty + tail;
    forall i | 0 <= i < |all| ensures all[i] in m {
      if i >= |dirty| {
        assert all[i] == tail[i - |dirty|];
      }
    }
    notes := FlushFrom(m, all, notes0);
    RefreshedBy(derive, h, x, m0, m, dirty, notes0, notes, tail);
    if |dirty| > 0 {
      assert dirty[0] in dirty;
    }
  }

  class Graph {
    var nodes: Nodes
    var heap: Heap
    /** Every `next` call made so far, oldest first. */
    var notes: seq<Note>
    var nextNode: NodeId
    var nextObj: ObjId
    var nextWrapper: nat
    /** What the functions given to `lift` compute: `derive(f, parentValue,
        prevValue)`. */
    const derive: (FnId, Val, Val) -> Val

    ghost predicate Valid()
      reads this`nodes, this`heap, this`nextNode, this`nextObj, this`nextWrapper
    {
      Coherent(nodes, heap, derive, nextNode, nextObj, nextWrapper)
    }

    constructor (derive: (FnId, Val, Val) -> Val, heap: Heap)
      requires Closed(heap)
      requires forall f, a, b :: InHeap(heap, derive(f, a, b))
      ensures Valid()
      ensures this.derive == derive && this.heap == heap && nodes == map[] && notes == []
    {
      this.derive := derive;
      this.heap := heap;
      var bound := 0;
      var rest := heap.Keys;
      ghost var counted: set<ObjId> := {};
      while rest != {}
        invariant counted + rest == heap.Keys
        invariant forall o | o in counted :: o < bound
        decreases rest
      {
        var o :| o in rest;
        if o >= bound {
          bound := o + 1;
        }
        rest, counted := rest - {o}, counted + {o};
      }
      nodes, notes, nextNode, nextObj, nextWrapper := map[], [], 0, bound, 0;
    }

    /** A value node with no parent: `new Store(value)` or
        `new ListItem(value, index)`. */
    method NewRoot(kind: Kind, value: Val) returns (x: NodeId)
      requires Valid() && (kind.Root? || kind.Item?) && InHeap(heap, value)
      modifies this
      ensures Valid()
      ensures x !in old(nodes) && nodes == old(nodes)[x := Node(kind, None, value, [], [])]
      ensures heap == old(heap) && notes == old(notes)
    {
      x := nextNode;
      nodes := nodes[x := Node(kind, None, value, [], [])];
      nextNode := nextNode + 1;
    }

    /** `peek(project)`: the projection of the value, or `undefined` without
        calling `project` when the value is `undefined`. */
    function Peek(x: NodeId, project: Val -> Val): (r: Val)
      reads this
      requires x in nodes
      ensures nodes[x].value == Undef ==> r == Undef
      ensures nodes[x].value != Undef ==> r == project(nodes[x].value)
    {
      if nodes[x].value != Undef then project(nodes[x].value) else Undef
    }

    /** `get(name)`: scans the properties from the last to the first for an
        `ObjectProperty` called `name`. */
    method Get(x: NodeId, name: string) returns (r: Option<NodeId>)
      requires Valid() && x in nodes
      ensures r.Some? ==> r.value in nodes[x].properties && r.value in nodes && NameOf(nodes[r.value]) == Some(name)
      ensures r.None? <==> forall i :: 0 <= i < |nodes[x].properties| ==> NameOf(nodes[nodes[x].properties[i]]) != Some(name)
    {
      var ps := nodes[x].properties;
      var i := |ps|;
      while i > 0
        invariant 0 <= i <= |ps|
        invariant forall k :: i <= k < |ps| ==> NameOf(nodes[ps[k]]) != Some(name)
      {
        i := i - 1;
        if NameOf(nodes[ps[i]]) == Some(name) {
          return Some(ps[i]);
        }
      }
      return None;
    }

    /** The value a new `ObjectProperty` called `name` starts with under a
        parent holding `pv`: `pv[name]`, or `undefined` when `pv` is falsy. */
    function InitValue(pv: Val, name: string): (v: Val)
      reads this
      ensures !Truthy(pv) ==> v == Undef
      ensures pv.Ref? ==> v == Field(heap, pv.o, name)
    {
      if Truthy(pv) then Js.Get(heap, pv, name) else Undef
    }

    /** `property(name)`: the existing property of that name, or a new one
        seeded from the parent's value and appended to the properties. */
    method Property(x: NodeId, name: string) returns (p: NodeId)
      requires Valid() && x in nodes
      modifies this
      ensures Valid() && heap == old(heap) && notes == old(notes)
      ensures x in nodes && p in nodes && p in nodes[x].properties && NameOf(nodes[p]) == Some(name)
      ensures (exists i :: 0 <= i < |old(nodes)[x].properties| && NameOf(old(nodes)[old(nodes)[x].properties[i]]) == Some(name))
              ==> nodes == old(nodes)
      ensures (forall i :: 0 <= i < |old(nodes)[x].properties| ==> NameOf(old(nodes)[old(nodes)[x].properties[i]]) != Some(name))
              ==> p !in old(nodes) &&
                  nodes == old(nodes)[p := Node(Named(name), Some(x), InitValue(old(nodes)[x].value, name), [], [])]
                                     [x := old(nodes)[x].(properties := old(nodes)[x].properties + [p])]
    {
      var found := Get(x, name);
      if found.Some? {
        return found.value;
      }
      var pv := nodes[x].value;
      GetInHeap(heap, pv, name);
      p := NewChild(x, Named(name), InitValue(pv, name));
    }

    /** `lift(valueFrom)`: a new lifted node, appended to the properties,
        that starts with `valueFrom(value)`, or `undefined` when the value
        is `undefined`. */
    method Lift(x: NodeId, f: FnId) returns (p: NodeId)
      requires Valid() && x in nodes
      modifies this
      ensures Valid() && heap == old(heap) && notes == old(notes)
      ensures p !in old(nodes)
      ensures nodes == old(nodes)[p := Node(Lifted(f), Some(x), LiftedStart(f, old(nodes)[x].value), [], [])]
                                 [x := old(nodes)[x].(properties := old(nodes)[x].properties + [p])]
    {
      p := NewChild(x, Lifted(f), LiftedStart(f, nodes[x].value));
    }

    /** The first value of a node lifted by `f` from a parent holding `pv`. */
    function LiftedStart(f: FnId, pv: Val): (v: Val)
      ensures pv == Undef ==> v == Undef
      ensures pv != Undef ==> v == derive(f, pv, Undef)
    {
      if pv == Undef then Undef else derive(f, pv, Undef)
    }

    /** Allocates a property node under `x` and appends it to the properties. */
    method NewChild(x: NodeId, kind: Kind, value: Val) returns (p: NodeId)
      requires Valid() && x in nodes && (kind.Named? || kind.Lifted?) && InHeap(heap, value)
      requires kind.Named? ==> forall i :: 0 <= i < |nodes[x].properties| ==> NameOf(nodes[nodes[x].properties[i]]) != Some(kind.name)
      modifies this
      ensures Valid() && heap == old(heap) && notes == old(notes)
      ensures p !in old(nodes)
      ensures nodes == old(nodes)[p := Node(kind, Some(x), value, [], [])]
                                 [x := old(nodes)[x].(properties := old(nodes)[x].properties + [p])]
    {
      p := nextNode;
      AppendChildLinked(nodes, x, p, kind, value);
      AppendChildNamed(nodes, x, p, kind, value);
      var n := nodes[x];
      nodes := nodes[p := Node(kind, Some(x), value, [], [])][x := n.(properties := n.properties + [p])];
      nextNode := nextNode + 1;
    }

    /** `dispose()`: removes the node from its parent's properties if it is
        listed there; a node without a parent, or one no longer listed,
        changes nothing. */
    method Dispose(x: NodeId)
      requires Valid() && x in nodes
      modifies this
      ensures Valid() && heap == old(heap) && notes == old(notes)
      ensures old(nodes)[x].parent.None? ==> nodes == old(nodes)
      ensures old(nodes)[x].parent.Some? ==>
        var q := old(nodes)[x].parent.value;
        nodes == old(nodes)[q := old(nodes)[q].(properties := RemoveFirst(old(nodes)[q].properties, x))]
    {
      var parent := nodes[x].parent;
      if parent.Some? {
        var q := parent.value;
        DisposeKeeps(nodes, heap, derive, nextNode, nextObj, nextWrapper, q, x);
        nodes := nodes[q := nodes[q].(properties := RemoveFirst(nodes[q].properties, x))];
      }
    }

    /** `onChange(observer, skipCurrent)`: a function is wrapped in a new
        `{ next }` object; an object without `next` is ignored and gets the
        empty subscription. Otherwise, unless `skipCurrent`, a defined current
        value is delivered once, and the observer is appended. */
    method OnChange(x: NodeId, arg: ObserverArg, skipCurrent: bool) returns (sub: Subscription)
      requires Valid() && x in nodes
      modifies this
      ensures Valid() && heap == old(heap) && nodes.Keys == old(nodes).Keys
      ensures arg.ObjectObserver? && !arg.hasNext ==>
        sub == NoSubscription && nodes == old(nodes) && notes == old(notes)
      ensures arg.FunctionObserver? || arg.hasNext ==>
        var o := if arg.FunctionObserver? then Wrapper(old(nextWrapper)) else Given(arg.id);
        sub == Subscription(x, o) &&
        nodes == old(nodes)[x := old(nodes)[x].(observers := old(nodes)[x].observers + [o])] &&
        notes == old(notes) + (if !skipCurrent && old(nodes)[x].value != Undef then [Note(x, o, old(nodes)[x].value)] else [])
      ensures arg.FunctionObserver? ==> forall y | y in old(nodes) :: Wrapper(old(nextWrapper)) !in old(nodes)[y].observers
    {
      var o;
      if arg.FunctionObserver? {
        o := Wrapper(nextWrapper);
        nextWrapper := nextWrapper + 1;
      } else if !arg.hasNext {
        return NoSubscription;
      } else {
        o := Given(arg.id);
      }
      if !skipCurrent && nodes[x].value != Undef {
        notes := notes + [Note(x, o, nodes[x].value)];
      }
      var m := nodes[x := nodes[x].(observers := nodes[x].observers + [o])];
      ObserversKeep(nodes, heap, derive, nextNode, nextObj, old(nextWrapper), nextWrapper, x, nodes[x].observers + [o]);
      nodes := m;
      sub := Subscription(x, o);
    }

    /** `unsubscribe()` on what `onChange` returned, with the `idx >= 0`
        guard: the first occurrence of the observer is removed and the other
        observers keep their order; unsubscribing again changes nothing. */
    method Unsubscribe(sub: Subscription)
      requires Valid() && (sub.Subscription? ==> sub.node in nodes)
      modifies this
      ensures Valid() && heap == old(heap) && notes == old(notes)
      ensures sub.NoSubscription? ==> nodes == old(nodes)
      ensures sub.Subscription? ==>
        nodes == old(nodes)[sub.node := old(nodes)[sub.node].(observers := RemoveFirst(old(nodes)[sub.node].observers, sub.observer))]
    {
      if sub.Subscription? {
        var n := nodes[sub.node];
        var m := nodes[sub.node := n.(observers := RemoveFirst(n.observers, sub.observer))];
        RemoveFirstWithin(n.observers, sub.observer);
        ObserversKeep(nodes, heap, derive, nextNode, nextObj, nextWrapper, nextWrapper, sub.node, RemoveFirst(n.observers, sub.observer));
        nodes := m;
      }
    }

    /** `flush(dirty)` on the graph's nodes. */
    method Flush(dirty: seq<NodeId>)
      requires forall i | 0 <= i < |dirty| :: dirty[i] in nodes
      modifies this`notes
      ensures notes == old(notes) + Notifications(nodes, dirty)
    {
      notes := FlushFrom(nodes, dirty, notes);
    }

    /** `digest(root)` on the graph's nodes: `digest(null)` is `[]`. */
    method Digest(root: Option<NodeId>) returns (dirty: seq<NodeId>)
      requires Valid() && (root.Some? ==> root.value in nodes)
      modifies this`nodes
      ensures Valid() && ValuesOnly(old(nodes), nodes)
      ensures root.None? ==> dirty == [] && nodes == old(nodes)
      ensures root.Some? ==> Reach(old(nodes), root.value) <= old(nodes).Keys
      ensures root.Some? ==> Recomputed(derive, heap, old(nodes), nodes, root.value, Reach(old(nodes), root.value))
      ensures root.Some? ==> DirtyExactly(old(nodes), nodes, root.value, Reach(old(nodes), root.value), dirty)
      ensures root.Some? ==> Linked(old(nodes)) && dirty == ChangedIn(old(nodes), nodes, DigestOrder(old(nodes), root.value))
    {
      if root.None? {
        return [];
      }
      var m;
      m, dirty := DigestFrom(derive, heap, nodes, root.value);
      DigestKeeps(derive, heap, nodes, m, root.value, nextNode, nextObj, nextWrapper);
      nodes := m;
    }

    /** `updateValue(target, newValue, partial)` on node `x`. A function's
        result is handed to `updateValue` again, without `partial`. */
    method UpdateValue(x: NodeId, upd: Updater, partial: bool) returns (changed: bool)
      requires Valid() && x in nodes && UpdaterIn(heap, upd)
      modifies this`nodes, this`heap
      ensures Valid()
      ensures Applied(UpdateEffect(old(nodes)[x].value, upd, partial), x, old(nodes), old(heap), nodes, heap, changed)
    {
      hide Applied;
      nodes, heap, changed := UpdateValueIn(derive, nodes, heap, nextNode, nextObj, nextWrapper, x, upd, partial);
    }

    /** `digest(x)`, then `flush` of the changed nodes followed by `tail`. */
    method DigestAndFlush(x: NodeId, tail: seq<NodeId>) returns (ghost settled: Nodes, ghost dirty: seq<NodeId>)
      requires Valid() && x in nodes && forall i | 0 <= i < |tail| :: tail[i] in nodes
      modifies this`nodes, this`notes
      ensures Valid() && settled == old(nodes)
      ensures Refreshed(derive, heap, x, settled, nodes, dirty, old(notes), notes, tail)
    {
      hide Refreshed;
      settled := nodes;
      var m, d, ns := RefreshFrom(derive, heap, nodes, x, tail, notes, nextNode, nextObj, nextWrapper);
      nodes, notes, dirty := m, ns, d;
    }

    /** `update(newValue, autoRefresh, partial)` of a `Store`, and, with
        `partial` false, `update(newValue, autoRefresh)` of a `ListItem`:
        on a change with `autoRefresh`, the node's properties are digested
        and flushed, followed by the node itself. */
    method UpdateRoot(x: NodeId, upd: Updater, autoRefresh: bool, partial: bool)
      returns (changed: bool, ghost settled: Nodes, ghost dirty: seq<NodeId>)
      requires Valid() && x in nodes && nodes[x].parent.None? && UpdaterIn(heap, upd)
      modifies this`nodes, this`heap, this`notes
      ensures Valid()
      ensures Applied(UpdateEffect(old(nodes)[x].value, upd, partial), x, old(nodes), old(heap), settled, heap, changed)
      ensures changed && autoRefresh ==> Refreshed(derive, heap, x, settled, nodes, dirty, old(notes), notes, [x])
      ensures !(changed && autoRefresh) ==> nodes == settled && notes == old(notes)
    {
      changed := UpdateValue(x, upd, partial);
      settled, dirty := nodes, [];
      if changed && autoRefresh {
        settled, dirty := DigestAndFlush(x, [x]);
      }
    }

    /** `update(updater, autoRefresh)` of an `ObjectProperty`: nothing more
        happens when `updateValue` reports no change; otherwise the value is
        written back into the parent's value and, with `autoRefresh`, the
        property is digested and the changed nodes are flushed, followed by
        the property itself and each of its ancestors. */
    method UpdateProperty(x: NodeId, upd: Updater, autoRefresh: bool)
      returns (r: Completion<bool>, ghost settled: Nodes, ghost dirty: seq<NodeId>)
      requires Valid() && x in nodes && nodes[x].kind.Named? && UpdaterIn(heap, upd)
      modifies this`nodes, this`heap, this`nextObj, this`notes
      ensures Valid() && old(nextObj) <= nextObj
      ensures r.Threw? ==> r.error == TypeError
      ensures PropertyUpdated(UpdateEffect(old(nodes)[x].value, upd, false), old(nodes), old(heap), old(nextObj), settled, heap, x, r)
      ensures r == Returned(true) && autoRefresh ==>
                Refreshed(derive, heap, x, settled, nodes, dirty, old(notes), notes, Ancestors(old(nodes), x))
      ensures !(r == Returned(true) && autoRefresh) ==> nodes == settled && notes == old(notes)
    {
      hide Coherent;
      hide PropertyUpdated;
      hide Refreshed;
      nodes, heap, notes, nextObj, r, settled, dirty :=
        UpdatePropertyIn(derive, nodes, heap, notes, nextNode, nextObj, nextWrapper, x, upd, autoRefresh);
    }

    /** `refresh(x)`: digests, and flushes when something changed. */
    method Refresh(x: NodeId) returns (b: bool, ghost dirty: seq<NodeId>)
      requires Valid() && x in nodes
      modifies this`nodes, this`notes
      ensures Valid() && Refreshed(derive, heap, x, old(nodes), nodes, dirty, old(notes), notes, [])
      ensures b <==> exists y | y in Reach(old(nodes), x) && y != x :: nodes[y].value != old(nodes)[y].value
    {
      hide Refreshed;
      var m, d, ns := RefreshFrom(derive, heap, nodes, x, [], notes, nextNode, nextObj, nextWrapper);
      nodes, notes, dirty := m, ns, d;
      b := |d| > 0;
    }

  }
}
