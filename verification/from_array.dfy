/** `fromArray(snapshot)` of lib/list/from-array.ts: a list store over one
    array, updated in place, that sends every mutation it applies to its
    subscribers. A subscriber that starts from the array as it was and
    applies each mutation it is sent sees the array as it is. */
module FromArray {
  import opened Js
  import opened ListMutation
  import Utils

  /** How a subscriber mirroring the list reads one mutation. A remove names
      its element by `index`, or, in the shape `removeItem` builds, by a
      number kept under `predicate`; a negative index removes nothing. */
  function Step(s: seq<Val>, m: Mutation<Val>): seq<Val>
  {
    match m
    case Push(v) => s + [v]
    case Insert(v, i) => Utils.InsertAt(s, i, v)
    case RemoveAt(i) => if i >= 0 then Utils.DeleteAt(s, i) else s
    case Remove(p) => if p.IndexNumber? && p.n >= 0 then Utils.DeleteAt(s, p.n) else s
    case Move(from, to) => Utils.SwapAll(s, from, to, Undef)
    case Reset(items) => items
    case Update(_, _) => s
  }

  /** The mirror after the mutations `log`, in order, starting from `s`. */
  function Replay(s: seq<Val>, log: seq<Mutation<Val>>): seq<Val>
    decreases |log|
  {
    if log == [] then s else Replay(Step(s, log[0]), log[1..])
  }

  /** One more mutation is one more step of the mirror. */
  lemma {:induction false} ReplayAppend(s: seq<Val>, log: seq<Mutation<Val>>, m: Mutation<Val>)
    ensures Replay(s, log + [m]) == Step(Replay(s, log), m)
    decreases |log|
  {
    if log == [] {
      assert Replay(s, [m]) == Replay(Step(s, m), []);
    } else {
      assert (log + [m])[1..] == log[1..] + [m];
      ReplayAppend(Step(s, log[0]), log[1..], m);
    }
  }

  /** Where a remove mutation points: its `index`, or else the first element
      its predicate accepts (`-1` for none). `findIndex` throws a
      `TypeError` when handed a number instead of a function. */
  function RemoveIndex(test: (FnId, Val) -> bool, s: seq<Val>, mut: Mutation<Val>): (r: Completion<int>)
    requires mut.RemoveAt? || mut.Remove?
    ensures mut.RemoveAt? ==> r == Returned(mut.index)
    ensures mut.Remove? && mut.pred.IndexNumber? ==> r == Threw(TypeError)
    ensures mut.Remove? && mut.pred.Callback? ==>
              r.Returned? && -1 <= r.value < |s| &&
              (r.value >= 0 ==> test(mut.pred.f, s[r.value])) &&
              forall k | 0 <= k < |s| && (r.value == -1 || k < r.value) :: !test(mut.pred.f, s[k])
  {
    if mut.RemoveAt? then Returned(mut.index)
    else if mut.pred.IndexNumber? then Threw(TypeError)
    else Returned(Utils.FindIndex(s, v => test(mut.pred.f, v)))
  }

  /** What `applyMutation(mut)` leaves in the array and sends, or the error
      it throws. `reset` and `update` have no branch: nothing happens. */
  function Outcome(test: (FnId, Val) -> bool, s: seq<Val>, mut: Mutation<Val>): Completion<(seq<Val>, seq<Mutation<Val>>)>
  {
    match mut
    case Insert(v, i) => Returned((Utils.InsertAt(s, i, v), [mut]))
    case Push(v) => Returned((s + [v], [mut]))
    case Move(from, to) => Returned((Utils.SwapAll(s, from, to, Undef), [mut]))
    case Reset(_) => Returned((s, []))
    case Update(_, _) => Returned((s, []))
    case _ =>
      var k := RemoveIndex(test, s, mut);
      if k.Threw? then Threw(k.error)
      else Returned((if k.value >= 0 then Utils.DeleteAt(s, k.value) else s, [RemoveAt(k.value)]))
  }

  /** Whatever `applyMutation` sends, a mirror that applies it reaches the
      new array. */
  lemma OutcomeMirrored(test: (FnId, Val) -> bool, s: seq<Val>, mut: Mutation<Val>)
    requires Outcome(test, s, mut).Returned?
    ensures Replay(s, Outcome(test, s, mut).value.1) == Outcome(test, s, mut).value.0
  {
    var events := Outcome(test, s, mut).value.1;
    if events != [] {
      assert events == [events[0]];
      assert Replay(s, events) == Replay(Step(s, events[0]), []);
    }
  }

  /** A push appends its value and sends the same mutation. */
  lemma PushAppends(test: (FnId, Val) -> bool, s: seq<Val>, v: Val)
    ensures Outcome(test, s, Push(v)).Returned?
    ensures var (s', sent) := Outcome(test, s, Push(v)).value;
            |s'| == |s| + 1 && s'[..|s|] == s && s'[|s|] == v && sent == [Push(v)]
  {
  }

  /** An insert puts its value at the clamped index, shifting the later
      elements up by one, and sends the same mutation. */
  lemma InsertShifts(test: (FnId, Val) -> bool, s: seq<Val>, v: Val, i: int)
    ensures Outcome(test, s, Insert(v, i)).Returned?
    ensures var (s', sent) := Outcome(test, s, Insert(v, i)).value;
            var k := Utils.SpliceStart(i, |s|);
            |s'| == |s| + 1 && s'[k] == v && s'[..k] == s[..k] && s'[k + 1..] == s[k..] && sent == [Insert(v, i)]
  {
  }

  /** A remove by predicate deletes the first element the predicate accepts,
      and nothing when there is none; either way it sends a remove with the
      index it found, `-1` included. */
  lemma RemoveFirstAccepted(test: (FnId, Val) -> bool, s: seq<Val>, f: FnId)
    ensures Outcome(test, s, Remove(Callback(f))).Returned?
    ensures var (s', sent) := Outcome(test, s, Remove(Callback(f))).value;
            exists k :: -1 <= k < |s| && sent == [RemoveAt(k)] &&
              (k >= 0 ==> test(f, s[k]) && (forall j | 0 <= j < k :: !test(f, s[j])) &&
                          s' == s[..k] + s[k + 1..]) &&
              (k == -1 ==> s' == s && forall j | 0 <= j < |s| :: !test(f, s[j]))
  {
    var k := RemoveIndex(test, s, Remove(Callback(f))).value;
    var s' := Outcome(test, s, Remove(Callback(f))).value.0;
    if k >= 0 {
      assert Utils.SpliceStart(k, |s|) == k;
      assert s' == Utils.DeleteAt(s, k);
    }
    assert Outcome(test, s, Remove(Callback(f))).value.1 == [RemoveAt(k)];
  }

  /** A move of two elements exchanges them and sends the same mutation;
      moving back restores the array. */
  lemma MoveExchanges(test: (FnId, Val) -> bool, s: seq<Val>, from: int, to: int)
    requires 0 <= from < |s| && 0 <= to < |s|
    ensures Outcome(test, s, Move(from, to)).Returned?
    ensures var (s', sent) := Outcome(test, s, Move(from, to)).value;
            |s'| == |s| && s'[from] == s[to] && s'[to] == s[from] && sent == [Move(from, to)] &&
            (forall k | 0 <= k < |s| && k != from && k != to :: s'[k] == s[k]) &&
            Outcome(test, s', Move(from, to)) == Returned((s, [Move(from, to)]))
  {
    Utils.SwapExchanges(s, from, to, Undef);
    Utils.SwapInvolution(s, from, to, Undef);
  }

  /** The mutation `add(x)` applies: `x` itself when it passes `isMutation`,
      otherwise a push of `x`, an `update` object included. */
  function Added(x: Input<Val>): (m: Mutation<Val>)
    ensures IsMutation(x) ==> m == x.m
    ensures !IsMutation(x) && x.Plain? ==> m == Push(x.v)
    ensures !IsMutation(x) && x.MutationObject? ==> m == Push(Ref(x.ref))
  {
    if IsMutation(x) then x.m
    else if x.Plain? then Push(x.v)
    else Push(Ref(x.ref))
  }

  class ArrayList {
    /** The array handed to `fromArray`, updated in place. */
    const snapshot: JsArray
    /** Whether predicate function `f` accepts an element. */
    const test: (FnId, Val) -> bool
    /** Every mutation sent to subscribers, oldest first. */
    var emitted: seq<Mutation<Val>>
    /** The array when the store was made. */
    ghost const start: seq<Val>

    ghost predicate Valid()
      reads this, snapshot
    {
      Replay(start, emitted) == snapshot.elems
    }

    constructor (snapshot: JsArray, test: (FnId, Val) -> bool)
      ensures Valid() && this.snapshot == snapshot && this.test == test
      ensures emitted == [] && start == snapshot.elems
    {
      this.snapshot := snapshot;
      this.test := test;
      emitted := [];
      start := snapshot.elems;
    }

    /** `length`: the length of the array, which is that of the mirror. */
    function Length(): (n: nat)
      reads this, snapshot
      ensures Valid() ==> n == |Replay(start, emitted)|
    {
      |snapshot.elems|
    }

    /** `peek(fn)`: `fn` applied to the array as it is now. */
    function Peek<R>(fn: seq<Val> -> R): (r: R)
      reads this, snapshot
      ensures Valid() ==> r == fn(Replay(start, emitted))
    {
      fn(snapshot.elems)
    }

    /** `applyMutation(mut)`. */
    method ApplyMutation(mut: Mutation<Val>) returns (r: Completion<()>)
      requires Valid()
      modifies this`emitted, snapshot
      ensures Valid()
      ensures var o := Outcome(test, old(snapshot.elems), mut);
              (o.Threw? ==> r == Threw(o.error) && snapshot.elems == old(snapshot.elems) && emitted == old(emitted)) &&
              (o.Returned? ==> r == Returned(()) && snapshot.elems == o.value.0 && emitted == old(emitted) + o.value.1)
    {
      ghost var s := snapshot.elems;
      r := Returned(());
      match mut {
        case Insert(v, i) =>
          snapshot.elems := Utils.InsertAt(snapshot.elems, i, v);
          emitted := emitted + [mut];
        case Push(v) =>
          snapshot.elems := snapshot.elems + [v];
          emitted := emitted + [mut];
        case Move(from, to) =>
          Utils.SwapItems(snapshot, from, to);
          emitted := emitted + [mut];
        case Reset(_) =>
        case Update(_, _) =>
        case RemoveAt(index) =>
          RemoveResolved(index);
        case Remove(p) =>
          if p.IndexNumber? {
            return Threw(TypeError);
          }
          RemoveResolved(Utils.FindIndex(snapshot.elems, v => test(p.f, v)));
      }
      if Outcome(test, s, mut).Returned? {
        OutcomeMirrored(test, s, mut);
        var sent := Outcome(test, s, mut).value.1;
        if sent != [] {
          assert sent == [sent[0]];
          ReplayAppend(start, old(emitted), sent[0]);
        }
      }
    }

    /** The end of the remove branch, once the index is found: delete
        there when it is not negative, and send a remove with it. */
    method RemoveResolved(index: int)
      modifies this`emitted, snapshot
      ensures snapshot.elems == if index >= 0 then Utils.DeleteAt(old(snapshot.elems), index) else old(snapshot.elems)
      ensures emitted == old(emitted) + [RemoveAt(index)]
    {
      if index >= 0 {
        snapshot.elems := Utils.DeleteAt(snapshot.elems, index);
      }
      emitted := emitted + [RemoveAt(index)];
    }

    /** `add(x)`. */
    method Add(x: Input<Val>) returns (r: Completion<()>)
      requires Valid()
      modifies this`emitted, snapshot
      ensures Valid()
      ensures var o := Outcome(test, old(snapshot.elems), Added(x));
              (o.Threw? ==> r == Threw(o.error) && snapshot.elems == old(snapshot.elems) && emitted == old(emitted)) &&
              (o.Returned? ==> r == Returned(()) && snapshot.elems == o.value.0 && emitted == old(emitted) + o.value.1)
    {
      if IsMutation(x) {
        r := ApplyMutation(x.m);
      } else if x.Plain? {
        r := ApplyMutation(Push(x.v));
      } else {
        r := ApplyMutation(Push(Ref(x.ref)));
      }
    }
  }
}
