/** The in-place partial merge of update-partial.ts, also inlined in the
    partial branch of `updateValue` in lib/store.ts: an explicit stack of
    (target, source) object pairs, walked field by field over the keys of
    each source. */
module Merge {
  import opened Js

  datatype Pair = Pair(target: ObjId, source: ObjId)

  /** What the merge loop carries: the heap, the work stack and the flag `b`. */
  datatype Pass = Pass(heap: Heap, stack: seq<Pair>, changed: bool)

  /** The for-in body for one key `k` of the source `s`, merging into `t`. */
  function KeyStep(p: Pass, t: ObjId, s: ObjId, k: string): (q: Pass)
    requires t in p.heap
    ensures q.heap.Keys == p.heap.Keys
  {
    var sv := Field(p.heap, s, k);
    var tv := Field(p.heap, t, k);
    if sv == tv || tv.Fn? then p
    else if IsObject(tv) && IsObject(sv) then p.(stack := p.stack + [Pair(tv.o, sv.o)])
    else p.(heap := SetField(p.heap, t, k, sv), changed := true)
  }

  /** The for-in loop over the keys `ks` of a source, in enumeration order. */
  function ForIn(p: Pass, t: ObjId, s: ObjId, ks: seq<string>): (q: Pass)
    requires t in p.heap
    ensures q.heap.Keys == p.heap.Keys
  {
    if ks == [] then p
    else KeyStep(ForIn(p, t, s, ks[..|ks| - 1]), t, s, ks[|ks| - 1])
  }

  /** One turn of the merge loop as written: pop a pair and run the for-in
      over the source's keys. The guard `!merged.add(targetValue)` tests the
      Set that `add` returns, which is always truthy, so it never skips a
      pair and does not appear here. */
  function StepAsWritten(p: Pass, ks: seq<string>): Pass
    requires p.stack != [] && p.stack[|p.stack| - 1].target in p.heap
  {
    var top := p.stack[|p.stack| - 1];
    ForIn(p.(stack := p.stack[..|p.stack| - 1]), top.target, top.source, ks)
  }

  /** A field the merge changed: it did not hold a function, and it was not
      an object replaced by another object (nested objects are merged into,
      keeping their identity). */
  predicate Overwritable(before: Val, after: Val)
  {
    !before.Fn? && !(IsObject(before) && IsObject(after))
  }

  /** The effect of a merge from `h0` to `h`: the same objects, only
      overwritable fields changed, each changed field belongs to a visited
      target whose paired source has that key, and a key the merge added
      holds a value other than `undefined` (a source's `undefined` matches
      a target's missing key and is skipped). */
  ghost predicate MergedFrom(h0: Heap, h: Heap, visited: map<ObjId, ObjId>)
  {
    h.Keys == h0.Keys &&
    visited.Keys <= h0.Keys &&
    (forall o | o in visited :: visited[o] in h0) &&
    (forall o | o in h0 :: h0[o].Keys <= h[o].Keys) &&
    (forall o, k | o in h0 && k in h[o] && k !in h0[o] :: h[o][k] != Undef) &&
    (forall o, k :: Field(h, o, k) != Field(h0, o, k) ==>
       Overwritable(Field(h0, o, k), Field(h, o, k)) && o in visited && k in h[visited[o]])
  }

  /** What the for-in leaves at one key of a target that held `before` and
      now holds `after`, given the source's value `sv`: the source's value
      was copied, or the target held a function and was skipped, or both
      are objects, the target still holds the same object, and that nested
      target has been merged into already or the pair of them waits on the
      stack. */
  predicate Copied(before: Val, after: Val, sv: Val, merged: set<ObjId>, stack: seq<Pair>)
  {
    after == sv || before.Fn? ||
    (IsObject(before) && IsObject(sv) && after == before && (before.o in merged || Pair(before.o, sv.o) in stack))
  }

  /** No field of `o` differs between `h0` and `h`. */
  ghost predicate Unwritten(h0: Heap, h: Heap, o: ObjId)
  {
    forall k :: Field(h, o, k) == Field(h0, o, k)
  }

  /** Every target whose paired source the merge left as it was has each
      key of that source copied in the sense of `Copied`. */
  ghost predicate CopiedFrom(h0: Heap, h: Heap, merged: map<ObjId, ObjId>, stack: seq<Pair>)
  {
    forall t, k | t in merged && merged[t] in h0 && Unwritten(h0, h, merged[t]) && k in h0[merged[t]] ::
      Copied(Field(h0, t, k), Field(h, t, k), Field(h0, merged[t], k), merged.Keys, stack)
  }

  /** The pair (`t`, `s`) was found by the merge: `t` and `s` are distinct
      objects, `t` is the object some merged target `q` held at a key `k`,
      and `s` is what `q`'s source held at `k`, unless that source field has
      been written since. A key whose two values are the same object is
      skipped, so such an object is never paired with itself. */
  ghost predicate Grounded(h0: Heap, h: Heap, merged: map<ObjId, ObjId>, t: ObjId, s: ObjId)
  {
    t != s &&
    exists q, k :: q in merged && Field(h0, q, k) == Ref(t) &&
      (Field(h0, merged[q], k) == Ref(s) || Field(h, merged[q], k) != Field(h0, merged[q], k))
  }

  /** Every merged target other than the root was found by the merge, paired
      with the source found beside it. */
  ghost predicate Reached(h0: Heap, h: Heap, merged: map<ObjId, ObjId>, root: ObjId)
  {
    forall o | o in merged && o != root :: Grounded(h0, h, merged, o, merged[o])
  }

  /** From `h` to `h'` no field that differs from `h0` is written again. */
  ghost predicate Stays(h0: Heap, h: Heap, h': Heap)
  {
    forall o, k :: Field(h, o, k) != Field(h0, o, k) ==> Field(h', o, k) == Field(h, o, k)
  }

  /** A found pair stays found as fields written stay written and the
      merged map grows. */
  lemma GroundedLift(h0: Heap, h: Heap, merged: map<ObjId, ObjId>, h': Heap, merged': map<ObjId, ObjId>,
                     t: ObjId, s: ObjId)
    requires Grounded(h0, h, merged, t, s) && Stays(h0, h, h')
    requires forall q | q in merged :: q in merged' && merged'[q] == merged[q]
    ensures Grounded(h0, h', merged', t, s)
  {
    var q, k :| q in merged && Field(h0, q, k) == Ref(t) &&
      (Field(h0, merged[q], k) == Ref(s) || Field(h, merged[q], k) != Field(h0, merged[q], k));
    assert q in merged' && Field(h0, q, k) == Ref(t) &&
      (Field(h0, merged'[q], k) == Ref(s) || Field(h', merged'[q], k) != Field(h0, merged'[q], k));
  }

  /** A key once copied stays copied as more targets are merged into and
      pairs move off the stack into the merged set. */
  lemma CopiedGrows(before: Val, after: Val, sv: Val, merged: set<ObjId>, stack: seq<Pair>,
                    merged': set<ObjId>, stack': seq<Pair>)
    requires Copied(before, after, sv, merged, stack) && merged <= merged'
    requires forall p | p in stack :: p in stack' || p.target in merged'
    ensures Copied(before, after, sv, merged', stack')
  {
  }

  /** Pairing a target that has not been merged into yet keeps the merge
      effect as it is. */
  lemma VisitPreserves(h0: Heap, h: Heap, visited: map<ObjId, ObjId>, t: ObjId, s: ObjId)
    requires MergedFrom(h0, h, visited)
    requires t in h0 && s in h0 && t !in visited && h[t] == h0[t]
    ensures MergedFrom(h0, h, visited[t := s])
  {
    forall o, k | Field(h, o, k) != Field(h0, o, k)
      ensures o in visited && o != t
    {
    }
  }

  /** Writing one field that still holds its original value, with a value
      allowed to replace it, keeps the merge effect and the closedness. */
  lemma WritePreserves(h0: Heap, h: Heap, visited: map<ObjId, ObjId>, t: ObjId, k: string, v: Val)
    requires MergedFrom(h0, h, visited) && Closed(h)
    requires t in visited && visited[t] in h && k in h[visited[t]]
    requires Field(h, t, k) == Field(h0, t, k) && Overwritable(Field(h0, t, k), v) && v != Field(h0, t, k)
    requires InHeap(h, v)
    ensures MergedFrom(h0, SetField(h, t, k, v), visited)
    ensures Closed(SetField(h, t, k, v))
    ensures forall o | o in h && o != t :: SetField(h, t, k, v)[o] == h[o]
  {
    var h' := SetField(h, t, k, v);
    forall o, j | Field(h', o, j) != Field(h0, o, j)
      ensures Overwritable(Field(h0, o, j), Field(h', o, j)) && o in visited && j in h'[visited[o]]
    {
      if o == t && j == k {
      } else {
        assert Field(h', o, j) == Field(h, o, j);
      }
    }
    forall o, j | o in h0 && j in h'[o] && j !in h0[o]
      ensures h'[o][j] != Undef
    {
      if o == t && j == k {
        assert Field(h0, t, k) == Undef;
      } else {
        assert h'[o][j] == Field(h, o, j);
      }
    }
    WriteClosed(h, t, k, v);
  }

  /** Writing a value of a closed heap into one of its objects keeps it
      closed. */
  lemma WriteClosed(h: Heap, t: ObjId, k: string, v: Val)
    requires Closed(h) && t in h && InHeap(h, v)
    ensures Closed(SetField(h, t, k, v))
  {
    var h' := SetField(h, t, k, v);
    forall o, j | o in h' && j in h'[o]
      ensures InHeap(h', h'[o][j])
    {
      if o == t && j == k {
        assert h'[o][j] == v;
      } else {
        assert h'[o][j] == Field(h, o, j);
      }
    }
  }

  /** Writing a field adds no object and removes no field. */
  lemma KeysGrow(h: Heap, cur: Heap, t: ObjId, k: string, v: Val)
    requires t in cur && forall o | o in h :: o in cur && h[o].Keys <= cur[o].Keys
    ensures forall o | o in h :: h[o].Keys <= SetField(cur, t, k, v)[o].Keys
  {
  }

  /** What holds while the for-in over the keys of `s` merges into `t`,
      starting from heap `h` and stack `stack`: `keys` are the keys still to
      come, whose target fields are unwritten; each key done is `Copied`;
      pushed pairs are pairs of `h0`'s objects found by the merge; only `t`
      is written; and no field written before is written again. */
  ghost predicate IntoInv(h0: Heap, h: Heap, visited: map<ObjId, ObjId>, t: ObjId, s: ObjId, stack: seq<Pair>,
                          keys: set<string>, h': Heap, stack': seq<Pair>, changed': bool, wo': ObjId, wk': string)
    requires t in h && s in h
  {
    Closed(h') && MergedFrom(h0, h', visited) &&
    keys <= h[s].Keys && h'.Keys == h.Keys && (forall o | o in h :: h[o].Keys <= h'[o].Keys) &&
    (forall k | k in keys :: Field(h', t, k) == Field(h0, t, k) && Field(h', s, k) == Field(h, s, k)) &&
    (forall k | k in h[s] && k !in keys :: Copied(Field(h0, t, k), Field(h', t, k), Field(h, s, k), {}, stack')) &&
    (forall p | p in stack :: p in stack') &&
    (forall p | p in stack' :: p.target in h0 && p.source in h0) &&
    (forall p | p in stack' :: Grounded(h0, h', visited, p.target, p.source)) &&
    (forall o | o in h && o != t :: h'[o] == h[o]) &&
    Stays(h0, h, h') &&
    (changed' ==> Field(h', wo', wk') != Field(h0, wo', wk')) &&
    (!changed' ==> h' == h0)
  }

  /** A pair pushed at key `k` of a merged target whose field there is
      unwritten is found by the merge. */
  lemma PushGrounded(h0: Heap, cur: Heap, visited: map<ObjId, ObjId>, t: ObjId, k: string)
    requires t in visited && Field(cur, t, k) == Field(h0, t, k)
    requires IsObject(Field(cur, t, k)) && IsObject(Field(cur, visited[t], k))
    requires Field(cur, t, k) != Field(cur, visited[t], k)
    ensures Grounded(h0, cur, visited, Field(cur, t, k).o, Field(cur, visited[t], k).o)
  {
    var sv := Field(cur, visited[t], k);
    assert Field(h0, t, k) == Ref(Field(cur, t, k).o) &&
      (Field(h0, visited[t], k) == Ref(sv.o) || Field(cur, visited[t], k) != Field(h0, visited[t], k));
  }

  /** Writing a field that still holds its original value writes no field
      written before, so found pairs stay found. */
  lemma WriteStays(h0: Heap, h: Heap, cur: Heap, visited: map<ObjId, ObjId>, t: ObjId, k: string, v: Val,
                   stack: seq<Pair>)
    requires t in cur && Stays(h0, h, cur) && Field(cur, t, k) == Field(h0, t, k)
    requires forall p | p in stack :: Grounded(h0, cur, visited, p.target, p.source)
    ensures Stays(h0, h, SetField(cur, t, k, v))
    ensures forall p | p in stack :: Grounded(h0, SetField(cur, t, k, v), visited, p.target, p.source)
  {
    var h' := SetField(cur, t, k, v);
    assert Stays(h0, cur, h');
    forall p | p in stack
      ensures Grounded(h0, h', visited, p.target, p.source)
    {
      GroundedLift(h0, cur, visited, h', visited, p.target, p.source);
    }
  }

  /** The for-in body for key `k` of the source `s`, merging into `t`:
      equal values and a function in the target are skipped, two objects
      are pushed as a pair, and anything else is copied. */
  method MergeKey(ghost h0: Heap, ghost h: Heap, ghost visited: map<ObjId, ObjId>, t: ObjId, s: ObjId,
                  ghost stack: seq<Pair>, ghost keys: set<string>, k: string,
                  cur: Heap, pending: seq<Pair>, changed: bool, ghost wo: ObjId, ghost wk: string)
    returns (h': Heap, stack': seq<Pair>, changed': bool, ghost wo': ObjId, ghost wk': string)
    requires t in visited && visited[t] == s && t in h && s in h && k in keys
    requires IntoInv(h0, h, visited, t, s, stack, keys, cur, pending, changed, wo, wk)
    ensures IntoInv(h0, h, visited, t, s, stack, keys - {k}, h', stack', changed', wo', wk')
    ensures t == s ==> h' == cur && stack' == pending && changed' == changed
  {
    assert t in cur;
    hide IntoInv;
    h', stack', changed', wo', wk' := cur, pending, changed, wo, wk;
    var sv, tv := Field(cur, s, k), Field(cur, t, k);
    if sv == tv || tv.Fn? {
      SkipKeeps(h0, h, visited, t, s, stack, keys, k, cur, pending, changed, wo, wk);
    } else if IsObject(tv) && IsObject(sv) {
      stack' := pending + [Pair(tv.o, sv.o)];
      PushKeeps(h0, h, visited, t, s, stack, keys, k, cur, pending, changed, wo, wk);
    } else {
      h' := SetField(cur, t, k, sv);
      if !changed {
        wo', wk' := t, k;
      }
      changed' := true;
      WriteKeeps(h0, h, visited, t, s, stack, keys, k, cur, pending, changed, wo, wk, wo', wk');
    }
  }

  /** Skipping a key whose two values are equal, or whose target value is a
      function, keeps the for-in invariant. */
  lemma SkipKeeps(h0: Heap, h: Heap, visited: map<ObjId, ObjId>, t: ObjId, s: ObjId,
                  stack: seq<Pair>, keys: set<string>, k: string,
                  cur: Heap, pending: seq<Pair>, changed: bool, wo: ObjId, wk: string)
    requires t in visited && visited[t] == s && t in h && s in h && k in keys
    requires IntoInv(h0, h, visited, t, s, stack, keys, cur, pending, changed, wo, wk)
    requires Field(cur, s, k) == Field(cur, t, k) || Field(cur, t, k).Fn?
    ensures IntoInv(h0, h, visited, t, s, stack, keys - {k}, cur, pending, changed, wo, wk)
  {
    hide Grounded, Stays, Closed, MergedFrom;
  }

  /** Pushing the pair of objects a key holds in the target and the source
      keeps the for-in invariant. */
  lemma PushKeeps(h0: Heap, h: Heap, visited: map<ObjId, ObjId>, t: ObjId, s: ObjId,
                  stack: seq<Pair>, keys: set<string>, k: string,
                  cur: Heap, pending: seq<Pair>, changed: bool, wo: ObjId, wk: string)
    requires t in visited && visited[t] == s && t in h && s in h && k in keys
    requires IntoInv(h0, h, visited, t, s, stack, keys, cur, pending, changed, wo, wk)
    requires Field(cur, s, k) != Field(cur, t, k) && IsObject(Field(cur, t, k)) && IsObject(Field(cur, s, k))
    ensures IntoInv(h0, h, visited, t, s, stack, keys - {k}, cur,
                    pending + [Pair(Field(cur, t, k).o, Field(cur, s, k).o)], changed, wo, wk)
  {
    hide Grounded, Stays, Closed, MergedFrom;
    PairInHeap(h0, cur, visited, t, s, k);
    var p := Pair(Field(cur, t, k).o, Field(cur, s, k).o);
    var stack' := pending + [p];
    PushGrounded(h0, cur, visited, t, k);
    assert forall q | q in stack' :: q in pending || q == p;
    forall j | j in h[s] && j !in keys - {k}
      ensures Copied(Field(h0, t, j), Field(cur, t, j), Field(h, s, j), {}, stack')
    {
      if j != k {
        CopiedGrows(Field(h0, t, j), Field(cur, t, j), Field(h, s, j), {}, pending, {}, stack');
      }
    }
  }

  /** The objects a key holds in two objects of a merged, closed heap are
      objects of the heap the merge started from. */
  lemma PairInHeap(h0: Heap, cur: Heap, visited: map<ObjId, ObjId>, t: ObjId, s: ObjId, k: string)
    requires Closed(cur) && MergedFrom(h0, cur, visited) && t in cur && s in cur
    requires IsObject(Field(cur, t, k)) && IsObject(Field(cur, s, k))
    ensures Field(cur, t, k).o in h0 && Field(cur, s, k).o in h0
  {
    GetInHeap(cur, Ref(t), k);
    GetInHeap(cur, Ref(s), k);
  }

  /** Copying the source's value into an unwritten field keeps the for-in
      invariant, with the written field as the witness of a change. */
  lemma WriteKeeps(h0: Heap, h: Heap, visited: map<ObjId, ObjId>, t: ObjId, s: ObjId,
                   stack: seq<Pair>, keys: set<string>, k: string,
                   cur: Heap, pending: seq<Pair>, changed: bool, wo: ObjId, wk: string, wo': ObjId, wk': string)
    requires t in visited && visited[t] == s && t in h && s in h && k in keys
    requires IntoInv(h0, h, visited, t, s, stack, keys, cur, pending, changed, wo, wk)
    requires Field(cur, s, k) != Field(cur, t, k) && !Field(cur, t, k).Fn?
    requires !(IsObject(Field(cur, t, k)) && IsObject(Field(cur, s, k)))
    requires (wo', wk') == if changed then (wo, wk) else (t, k)
    ensures IntoInv(h0, h, visited, t, s, stack, keys - {k}, SetField(cur, t, k, Field(cur, s, k)), pending, true, wo', wk')
  {
    hide Closed, MergedFrom, Grounded, Stays;
    var sv := Field(cur, s, k);
    GetInHeap(cur, Ref(s), k);
    WritePreserves(h0, cur, visited, t, k, sv);
    WriteStays(h0, h, cur, visited, t, k, sv, pending);
    var h' := SetField(cur, t, k, sv);
    KeysGrow(h, cur, t, k, sv);
    forall j | j in h[s] && j !in keys - {k}
      ensures Copied(Field(h0, t, j), Field(h', t, j), Field(h, s, j), {}, pending)
    {
      if j != k {
        assert Field(h', t, j) == Field(cur, t, j);
      }
    }
  }

  /** The for-in over the keys of `s` (as they are when the loop starts),
      merging into `t`, which has not been written yet. */
  method MergeInto(ghost h0: Heap, h: Heap, ghost visited: map<ObjId, ObjId>, t: ObjId, s: ObjId,
                   stack: seq<Pair>, changed: bool, ghost wo: ObjId, ghost wk: string)
    returns (h': Heap, stack': seq<Pair>, changed': bool, ghost wo': ObjId, ghost wk': string)
    requires Closed(h) && MergedFrom(h0, h, visited)
    requires t in visited && visited[t] == s && t in h && s in h && h[t] == h0[t]
    requires forall p | p in stack :: p.target in h0 && p.source in h0
    requires forall p | p in stack :: Grounded(h0, h, visited, p.target, p.source)
    requires changed ==> Field(h, wo, wk) != Field(h0, wo, wk)
    requires !changed ==> h == h0
    ensures Closed(h') && MergedFrom(h0, h', visited)
    ensures forall p | p in stack' :: p.target in h0 && p.source in h0
    ensures forall p | p in stack' :: Grounded(h0, h', visited, p.target, p.source)
    ensures Stays(h0, h, h')
    ensures forall o | o in h && o != t :: h'[o] == h[o]
    ensures changed' ==> Field(h', wo', wk') != Field(h0, wo', wk')
    ensures !changed' ==> h' == h0
    ensures forall p | p in stack :: p in stack'
    ensures forall k | k in h[s] :: Copied(Field(h0, t, k), Field(h', t, k), Field(h, s, k), {}, stack')
    ensures t == s ==> h' == h && stack' == stack && changed' == changed
  {
    h', stack', changed', wo', wk' := h, stack, changed, wo, wk;
    var keys := h[s].Keys;
    assert t in h0;
    while keys != {}
      invariant IntoInv(h0, h, visited, t, s, stack, keys, h', stack', changed', wo', wk')
      invariant t == s ==> h' == h && stack' == stack && changed' == changed
      decreases keys
    {
      var k :| k in keys;
      h', stack', changed', wo', wk' := MergeKey(h0, h, visited, t, s, stack, keys, k, h', stack', changed', wo', wk');
      keys := keys - {k};
    }
  }

  /** One turn of the guarded merge loop for a target not merged into yet:
      record the pair, then run the for-in over the source's keys. */
  method Visit(ghost h0: Heap, h: Heap, visited: map<ObjId, ObjId>, t: ObjId, s: ObjId,
               stack: seq<Pair>, changed: bool, ghost wo: ObjId, ghost wk: string)
    returns (h': Heap, visited': map<ObjId, ObjId>, stack': seq<Pair>, changed': bool,
             ghost wo': ObjId, ghost wk': string)
    requires Closed(h) && MergedFrom(h0, h, visited)
    requires t in h0 && s in h0 && t !in visited
    requires forall o | o in h0 && o !in visited :: h[o] == h0[o]
    requires forall p | p in stack :: p.target in h0 && p.source in h0
    requires forall p | p in stack :: Grounded(h0, h, visited, p.target, p.source)
    requires changed ==> Field(h, wo, wk) != Field(h0, wo, wk)
    requires !changed ==> h == h0
    ensures Closed(h') && MergedFrom(h0, h', visited')
    ensures visited' == visited[t := s]
    ensures forall o | o in h0 && o !in visited' :: h'[o] == h0[o]
    ensures forall p | p in stack' :: p.target in h0 && p.source in h0
    ensures forall p | p in stack' :: Grounded(h0, h', visited', p.target, p.source)
    ensures Stays(h0, h, h')
    ensures changed' ==> Field(h', wo', wk') != Field(h0, wo', wk')
    ensures !changed' ==> h' == h0
    ensures forall o | o in h && o != t :: h'[o] == h[o]
    ensures forall p | p in stack :: p in stack'
    ensures forall k | k in h[s] :: Copied(Field(h0, t, k), Field(h', t, k), Field(h, s, k), {}, stack')
    ensures t == s ==> h' == h && stack' == stack && changed' == changed
  {
    VisitPreserves(h0, h, visited, t, s);
    visited' := visited[t := s];
    forall p | p in stack
      ensures Grounded(h0, h, visited', p.target, p.source)
    {
      GroundedLift(h0, h, visited, h, visited', p.target, p.source);
    }
    h', stack', changed', wo', wk' := MergeInto(h0, h, visited', t, s, stack, changed, wo, wk);
  }

  /** What holds between turns of the guarded merge loop. */
  ghost predicate LoopInv(h0: Heap, target: ObjId, source: ObjId, h: Heap, merged: map<ObjId, ObjId>,
                          stack: seq<Pair>, changed: bool, wo: ObjId, wk: string)
  {
    Closed(h) && MergedFrom(h0, h, merged) &&
    target in merged && merged[target] == source &&
    (forall p | p in stack :: p.target in h0 && p.source in h0) &&
    (forall p | p in stack :: Grounded(h0, h, merged, p.target, p.source)) &&
    Reached(h0, h, merged, target) &&
    (forall o | o in h0 && o !in merged :: h[o] == h0[o]) &&
    (changed ==> Field(h, wo, wk) != Field(h0, wo, wk)) &&
    (!changed ==> h == h0) &&
    CopiedFrom(h0, h, merged, stack)
  }

  /** One turn of the guarded merge loop: pop a pair, and merge it unless
      its target was merged into already. Either one more target is merged,
      or nothing is and the stack is shorter. */
  method Turn(ghost h0: Heap, ghost target: ObjId, ghost source: ObjId, h: Heap, merged: map<ObjId, ObjId>,
              stack: seq<Pair>, changed: bool, ghost wo: ObjId, ghost wk: string)
    returns (h': Heap, merged': map<ObjId, ObjId>, stack': seq<Pair>, changed': bool,
             ghost wo': ObjId, ghost wk': string)
    requires stack != [] && LoopInv(h0, target, source, h, merged, stack, changed, wo, wk)
    ensures LoopInv(h0, target, source, h', merged', stack', changed', wo', wk')
    ensures |h0.Keys - merged'.Keys| < |h0.Keys - merged.Keys| || (merged' == merged && |stack'| < |stack|)
  {
    hide LoopInv, CopiedFrom, Copied, Closed, MergedFrom, Grounded, Reached, Stays, Unwritten;
    TurnStart(h0, target, source, h, merged, stack, changed, wo, wk);
    var top := stack[|stack| - 1];
    h', merged', stack', changed', wo', wk' := h, merged, stack[..|stack| - 1], changed, wo, wk;
    if top.target !in merged {
      h', merged', stack', changed', wo', wk' := Visit(h0, h, merged, top.target, top.source, stack', changed, wo, wk);
      VisitKeeps(h0, target, source, h, merged, stack, top, h', merged', stack', changed', wo', wk');
    }
  }

  /** What a turn may rely on when it pops the top pair; a pair whose target
      was merged into already is dropped with the invariant kept. */
  lemma TurnStart(h0: Heap, target: ObjId, source: ObjId, h: Heap, merged: map<ObjId, ObjId>,
                  stack: seq<Pair>, changed: bool, wo: ObjId, wk: string)
    requires stack != [] && LoopInv(h0, target, source, h, merged, stack, changed, wo, wk)
    ensures Closed(h) && MergedFrom(h0, h, merged) && CopiedFrom(h0, h, merged, stack)
    ensures target in merged && merged[target] == source
    ensures stack[|stack| - 1].target in h0 && stack[|stack| - 1].source in h0
    ensures forall p | p in stack[..|stack| - 1] :: p.target in h0 && p.source in h0
    ensures Grounded(h0, h, merged, stack[|stack| - 1].target, stack[|stack| - 1].source)
    ensures forall p | p in stack[..|stack| - 1] :: Grounded(h0, h, merged, p.target, p.source)
    ensures Reached(h0, h, merged, target)
    ensures forall o | o in h0 && o !in merged :: h[o] == h0[o]
    ensures changed ==> Field(h, wo, wk) != Field(h0, wo, wk)
    ensures !changed ==> h == h0
    ensures stack[|stack| - 1].target in merged ==>
              LoopInv(h0, target, source, h, merged, stack[..|stack| - 1], changed, wo, wk)
  {
    assert forall p | p in stack[..|stack| - 1] :: p in stack;
    if stack[|stack| - 1].target in merged {
      PopKeepsCopied(h0, h, merged, stack);
    }
  }

  /** Merging the popped pair into a target not merged into yet keeps the
      invariant and leaves fewer targets to merge into. */
  lemma VisitKeeps(h0: Heap, target: ObjId, source: ObjId, h: Heap, merged: map<ObjId, ObjId>, stack: seq<Pair>,
                   top: Pair, h': Heap, merged': map<ObjId, ObjId>, stack': seq<Pair>, changed': bool,
                   wo': ObjId, wk': string)
    requires stack != [] && top == stack[|stack| - 1] && top.target in h0 && top.target !in merged && top.source in h0
    requires target in merged && merged[target] == source
    requires MergedFrom(h0, h, merged) && CopiedFrom(h0, h, merged, stack)
    requires Grounded(h0, h, merged, top.target, top.source) && Reached(h0, h, merged, target)
    requires forall o | o in h0 && o !in merged :: h[o] == h0[o]
    requires merged' == merged[top.target := top.source]
    requires Closed(h') && MergedFrom(h0, h', merged')
    requires forall o | o in h0 && o !in merged' :: h'[o] == h0[o]
    requires forall p | p in stack' :: p.target in h0 && p.source in h0
    requires forall p | p in stack' :: Grounded(h0, h', merged', p.target, p.source)
    requires Stays(h0, h, h')
    requires changed' ==> Field(h', wo', wk') != Field(h0, wo', wk')
    requires !changed' ==> h' == h0
    requires forall o | o in h && o != top.target :: h'[o] == h[o]
    requires forall p | p in stack[..|stack| - 1] :: p in stack'
    requires forall k | k in h[top.source] ::
      Copied(Field(h0, top.target, k), Field(h', top.target, k), Field(h, top.source, k), {}, stack')
    ensures LoopInv(h0, target, source, h', merged', stack', changed', wo', wk')
    ensures |h0.Keys - merged'.Keys| < |h0.Keys - merged.Keys|
  {
    VisitKeepsCopied(h0, h, merged, stack, top, h', stack');
    VisitKeepsReached(h0, target, h, merged, top, h');
    VisitShrinks(h0, merged, top.target, top.source);
  }

  /** The popped pair was found, so after merging into its target every
      merged target is still found. */
  lemma VisitKeepsReached(h0: Heap, root: ObjId, h: Heap, merged: map<ObjId, ObjId>, top: Pair, h': Heap)
    requires top.target !in merged && Stays(h0, h, h')
    requires Grounded(h0, h, merged, top.target, top.source) && Reached(h0, h, merged, root)
    ensures Reached(h0, h', merged[top.target := top.source], root)
  {
    var merged' := merged[top.target := top.source];
    forall o | o in merged' && o != root
      ensures Grounded(h0, h', merged', o, merged'[o])
    {
      if o == top.target {
        GroundedLift(h0, h, merged, h', merged', o, top.source);
      } else {
        GroundedLift(h0, h, merged, h', merged', o, merged[o]);
      }
    }
  }

  /** Merging into one more target leaves fewer targets to merge into. */
  lemma VisitShrinks(h0: Heap, merged: map<ObjId, ObjId>, t: ObjId, s: ObjId)
    requires t in h0 && t !in merged
    ensures |h0.Keys - merged[t := s].Keys| < |h0.Keys - merged.Keys|
  {
    assert h0.Keys - merged[t := s].Keys == (h0.Keys - merged.Keys) - {t};
  }

  /** Popping a pair whose target was merged into already keeps every key
      copied: the pair's target is in the merged set. */
  lemma PopKeepsCopied(h0: Heap, h: Heap, merged: map<ObjId, ObjId>, stack: seq<Pair>)
    requires stack != [] && stack[|stack| - 1].target in merged && CopiedFrom(h0, h, merged, stack)
    ensures CopiedFrom(h0, h, merged, stack[..|stack| - 1])
  {
    var rest := stack[..|stack| - 1];
    assert forall p | p in stack :: p == stack[|stack| - 1] || p in rest;
    forall t, k | t in merged && merged[t] in h0 && Unwritten(h0, h, merged[t]) && k in h0[merged[t]]
      ensures Copied(Field(h0, t, k), Field(h, t, k), Field(h0, merged[t], k), merged.Keys, rest)
    {
      CopiedGrows(Field(h0, t, k), Field(h, t, k), Field(h0, merged[t], k), merged.Keys, stack, merged.Keys, rest);
    }
  }

  /** Merging into the popped pair's target, which was not merged into yet,
      keeps the keys of earlier targets copied (only the new target is
      written, and the popped pair's target is merged now) and copies the
      keys of the new one when its source is unwritten. */
  lemma VisitKeepsCopied(h0: Heap, h: Heap, merged: map<ObjId, ObjId>, stack: seq<Pair>, top: Pair,
                          h': Heap, stack': seq<Pair>)
    requires stack != [] && top == stack[|stack| - 1] && CopiedFrom(h0, h, merged, stack)
    requires MergedFrom(h0, h, merged) && MergedFrom(h0, h', merged[top.target := top.source])
    requires forall o | o in h0 && o !in merged :: h[o] == h0[o]
    requires top.target in h0 && top.target !in merged && top.source in h0
    requires forall o | o in h && o != top.target :: h'[o] == h[o]
    requires forall p | p in stack[..|stack| - 1] :: p in stack'
    requires forall k | k in h[top.source] ::
      Copied(Field(h0, top.target, k), Field(h', top.target, k), Field(h, top.source, k), {}, stack')
    ensures CopiedFrom(h0, h', merged[top.target := top.source], stack')
  {
    var merged' := merged[top.target := top.source];
    assert forall p | p in stack :: p == top || p in stack[..|stack| - 1];
    forall t, k | t in merged' && merged'[t] in h0 && Unwritten(h0, h', merged'[t]) && k in h0[merged'[t]]
      ensures Copied(Field(h0, t, k), Field(h', t, k), Field(h0, merged'[t], k), merged'.Keys, stack')
    {
      UnwrittenBefore(h0, h, h', top.target, merged'[t]);
      if t == top.target {
        assert Field(h, top.source, k) == Field(h0, top.source, k) && k in h[top.source];
        CopiedGrows(Field(h0, t, k), Field(h', t, k), Field(h0, merged'[t], k), {}, stack', merged'.Keys, stack');
      } else {
        assert Field(h', t, k) == Field(h, t, k);
        CopiedGrows(Field(h0, t, k), Field(h', t, k), Field(h0, merged'[t], k), merged.Keys, stack, merged'.Keys, stack');
      }
    }
  }

  /** A source unwritten after a visit that wrote only `t` was unwritten
      before it, `t` being unwritten then. */
  lemma UnwrittenBefore(h0: Heap, h: Heap, h': Heap, t: ObjId, o: ObjId)
    requires h.Keys == h0.Keys && h'.Keys == h.Keys && t in h0 && h[t] == h0[t]
    requires forall x | x in h && x != t :: h'[x] == h[x]
    requires Unwritten(h0, h', o)
    ensures Unwritten(h0, h, o)
  {
    if o != t && o in h {
      assert h'[o] == h[o];
      assert forall k :: Field(h, o, k) == Field(h', o, k);
    }
  }

  /** The merge loop with a working visited-set guard: a target already
      merged into is skipped, so every target is merged into at most once and
      the loop ends on every input, cyclic ones included. The keys of
      `merged` are the source's `merged` set; each maps to the source it was
      paired with. */
  method MergeObjects(h0: Heap, target: ObjId, source: ObjId)
    returns (h: Heap, changed: bool, merged: map<ObjId, ObjId>)
    requires Closed(h0) && target in h0 && source in h0
    ensures Closed(h)
    ensures MergedFrom(h0, h, merged)
    ensures target in merged && merged[target] == source
    ensures changed <==> h != h0
    ensures CopiedFrom(h0, h, merged, [])
    ensures Reached(h0, h, merged, target)
    ensures target == source ==> h == h0 && !changed
  {
    ghost var wo, wk := target, "";
    var stack;
    h, merged, stack, changed, wo, wk := Visit(h0, h0, map[], target, source, [], false, wo, wk);
    forall t, k | t in merged && merged[t] in h0 && Unwritten(h0, h, merged[t]) && k in h0[merged[t]]
      ensures Copied(Field(h0, t, k), Field(h, t, k), Field(h0, merged[t], k), merged.Keys, stack)
    {
      CopiedGrows(Field(h0, t, k), Field(h, t, k), Field(h0, merged[t], k), {}, stack, merged.Keys, stack);
    }
    while stack != []
      invariant LoopInv(h0, target, source, h, merged, stack, changed, wo, wk)
      invariant target == source ==> h == h0 && !changed && stack == []
      decreases |h0.Keys - merged.Keys|, |stack|
    {
      h, merged, stack, changed, wo, wk := Turn(h0, target, source, h, merged, stack, changed, wo, wk);
    }
  }

  /** `updatePartial(targetValue, newValue)` with the guard working: false
      and nothing changed when the target is falsy or not an object. A source
      that is `null`, a number, a boolean or a function has no fields here,
      so its for-in runs no body; a string source is treated the same way
      (its index fields are not modelled). */
  method UpdatePartial(h0: Heap, targetValue: Val, newValue: Val) returns (h: Heap, changed: bool)
    requires Closed(h0) && InHeap(h0, targetValue) && InHeap(h0, newValue)
    ensures !IsObject(targetValue) || !IsObject(newValue) ==> h == h0 && !changed
    ensures IsObject(targetValue) && IsObject(newValue) ==>
      exists visited :: MergedFrom(h0, h, visited) && targetValue.o in visited && visited[targetValue.o] == newValue.o &&
                        CopiedFrom(h0, h, visited, []) && Reached(h0, h, visited, targetValue.o)
    ensures targetValue == newValue ==> h == h0 && !changed
    ensures Closed(h)
    ensures changed <==> h != h0
  {
    if !Truthy(targetValue) || !IsObject(targetValue) || (!Truthy(newValue) && !(newValue.Null? || newValue.Ref?)) {
      return h0, false;
    }
    if !newValue.Ref? {
      return h0, false;
    }
    var visited;
    h, changed, visited := MergeObjects(h0, targetValue.o, newValue.o);
  }

  /** Two objects without references that differ in one field. */
  function PlainHeap(): Heap
  {
    map[0 := map["x" := Num(1)], 1 := map["x" := Num(2)]]
  }

  lemma PlainHeapNoRefs()
    ensures forall q, k :: !Field(PlainHeap(), q, k).Ref?
  {
  }

  /** The contract of `MergeObjects` pins its result down: merging `{x: 2}`
      into `{x: 1}`, no other object can be listed as merged, the source is
      left as it was, so the target's `x` becomes 2 and the heap changed. */
  lemma PlainMergeCopies(h: Heap, merged: map<ObjId, ObjId>)
    requires MergedFrom(PlainHeap(), h, merged) && 0 in merged && merged[0] == 1
    requires CopiedFrom(PlainHeap(), h, merged, []) && Reached(PlainHeap(), h, merged, 0)
    ensures merged.Keys == {0}
    ensures Field(h, 0, "x") == Num(2) && h != PlainHeap()
  {
    var h0 := PlainHeap();
    PlainHeapNoRefs();
    assert forall o | o in merged && o != 0 :: !Grounded(h0, h, merged, o, merged[o]);
    assert forall k :: Field(h, 1, k) == Field(h0, 1, k);
    assert Copied(Field(h0, 0, "x"), Field(h, 0, "x"), Field(h0, 1, "x"), merged.Keys, []);
  }

  /** `{a: X}` and `{a: Y}` with `X = {k: 0}` and `Y = {k: 1}`. */
  function NestedHeap(): Heap
  {
    map[0 := map["a" := Ref(2)], 1 := map["a" := Ref(3)], 2 := map["k" := Num(0)], 3 := map["k" := Num(1)]]
  }

  /** Where `NestedHeap` refers to which object. */
  lemma NestedHeapRefs()
    ensures Field(NestedHeap(), 0, "a") == Ref(2) && Field(NestedHeap(), 1, "a") == Ref(3)
    ensures forall q, k :: Field(NestedHeap(), q, k).Ref? ==>
      (q == 0 && k == "a" && Field(NestedHeap(), q, k) == Ref(2)) ||
      (q == 1 && k == "a" && Field(NestedHeap(), q, k) == Ref(3))
  {
  }

  lemma NestedHeapFields()
    ensures Field(NestedHeap(), 2, "k") == Num(0) && Field(NestedHeap(), 3, "k") == Num(1)
    ensures "k" in NestedHeap()[3] && 3 in NestedHeap() && 1 in NestedHeap() && "a" in NestedHeap()[1]
  {
  }

  /** The contract of `MergeObjects` reaches nested objects: merging
      `{a: Y}` into `{a: X}`, the target keeps `X`, which is merged with `Y`,
      so `X.k` becomes 1. */
  lemma NestedMergeCopies(h: Heap, merged: map<ObjId, ObjId>)
    requires MergedFrom(NestedHeap(), h, merged) && 0 in merged && merged[0] == 1
    requires CopiedFrom(NestedHeap(), h, merged, []) && Reached(NestedHeap(), h, merged, 0)
    ensures Field(h, 0, "a") == Ref(2) && 2 in merged && merged[2] == 3
    ensures Field(h, 2, "k") == Num(1)
  {
    var h0 := NestedHeap();
    NestedSourcesUnmerged(h, merged);
    NestedHeapRefs();
    NestedHeapFields();
    hide NestedHeap, Reached;
    assert Copied(Field(h0, 0, "a"), Field(h, 0, "a"), Field(h0, 1, "a"), merged.Keys, []);
    NestedPairFound(h, merged);
    assert Copied(Field(h0, 2, "k"), Field(h, 2, "k"), Field(h0, 3, "k"), merged.Keys, []);
  }

  /** Only objects some merged target refers to can be merged into: the
      sources are not. */
  lemma NestedSourcesUnmerged(h: Heap, merged: map<ObjId, ObjId>)
    requires Reached(NestedHeap(), h, merged, 0) && MergedFrom(NestedHeap(), h, merged)
    ensures 1 !in merged && 3 !in merged
    ensures Unwritten(NestedHeap(), h, 1) && Unwritten(NestedHeap(), h, 3)
  {
    var h0 := NestedHeap();
    NestedHeapRefs();
    hide NestedHeap, MergedFrom;
    assert forall o | o in merged && o == 1 :: !Grounded(h0, h, merged, o, merged[o]);
    assert forall o | o in merged && o == 3 :: !Grounded(h0, h, merged, o, merged[o]);
    UnvisitedUnwritten(h0, h, merged, 1);
    UnvisitedUnwritten(h0, h, merged, 3);
  }

  /** A merge that wrote no field left the heap exactly as it was. */
  lemma UnwrittenSame(h0: Heap, h: Heap, visited: map<ObjId, ObjId>)
    requires MergedFrom(h0, h, visited) && forall o | o in h0 :: Unwritten(h0, h, o)
    ensures h == h0
  {
    forall o | o in h0
      ensures h[o] == h0[o]
    {
      forall k | k in h[o]
        ensures k in h0[o]
      {
        assert Field(h, o, k) == Field(h0, o, k);
      }
      assert forall k | k in h0[o] :: h[o][k] == Field(h, o, k) == Field(h0, o, k) == h0[o][k];
    }
  }

  /** `{a: O}` and `{a: O}` sharing `O = {x: 1}`. */
  function SharedHeap(): Heap
  {
    map[0 := map["a" := Ref(2)], 1 := map["a" := Ref(2)], 2 := map["x" := Num(1)]]
  }

  /** Where `SharedHeap` refers to which object. */
  lemma SharedHeapRefs()
    ensures forall q, k :: Field(SharedHeap(), q, k).Ref? ==>
      (q == 0 || q == 1) && k == "a" && Field(SharedHeap(), q, k) == Ref(2)
    ensures SharedHeap()[1].Keys == {"a"} && SharedHeap().Keys == {0, 1, 2}
    ensures Field(SharedHeap(), 0, "a") == Ref(2) && Field(SharedHeap(), 1, "a") == Ref(2)
  {
  }

  /** The contract of `MergeObjects` keeps a nested object the target and
      the source share: merging `{a: O}` into `{a: O}`, the key `a` holds the
      same object on both sides and is skipped, so no object is paired with
      `O`, nothing is written and no change is reported. */
  lemma SharedMergeUnchanged(h: Heap, merged: map<ObjId, ObjId>, changed: bool)
    requires MergedFrom(SharedHeap(), h, merged) && 0 in merged && merged[0] == 1
    requires CopiedFrom(SharedHeap(), h, merged, []) && Reached(SharedHeap(), h, merged, 0)
    requires changed <==> h != SharedHeap()
    ensures merged.Keys == {0}
    ensures h == SharedHeap() && !changed
  {
    var h0 := SharedHeap();
    SharedHeapRefs();
    SharedUnmerged(h, merged);
    hide SharedHeap;
    assert merged.Keys <= h0.Keys;
    assert Copied(Field(h0, 0, "a"), Field(h, 0, "a"), Field(h0, 1, "a"), merged.Keys, []);
    assert Unwritten(h0, h, 0) by {
      forall k
        ensures Field(h, 0, k) == Field(h0, 0, k)
      {
        assert Field(h, 1, k) == Field(h0, 1, k);
      }
    }
    UnwrittenSame(h0, h, merged);
  }

  /** In that example neither the source nor the shared object is merged
      into: nothing refers to the source, and the one key that holds the
      shared object holds it on both sides. */
  lemma SharedUnmerged(h: Heap, merged: map<ObjId, ObjId>)
    requires Reached(SharedHeap(), h, merged, 0) && MergedFrom(SharedHeap(), h, merged) && 0 in merged && merged[0] == 1
    ensures 1 !in merged && 2 !in merged
    ensures Unwritten(SharedHeap(), h, 1) && Unwritten(SharedHeap(), h, 2)
  {
    var h0 := SharedHeap();
    SharedHeapRefs();
    hide SharedHeap, MergedFrom;
    assert forall o | o in merged && o == 1 :: !Grounded(h0, h, merged, o, merged[o]);
    UnvisitedUnwritten(h0, h, merged, 1);
    assert forall o | o in merged && o == 2 :: !Grounded(h0, h, merged, o, merged[o]);
    UnvisitedUnwritten(h0, h, merged, 2);
  }

  /** An object the merge did not visit keeps every field. */
  lemma UnvisitedUnwritten(h0: Heap, h: Heap, visited: map<ObjId, ObjId>, o: ObjId)
    requires MergedFrom(h0, h, visited) && o !in visited
    ensures Unwritten(h0, h, o)
  {
  }

  /** `X` is merged into with `Y`: the one merged target referring to `X`
      is the root, whose source `{a: Y}` is left as it was. */
  lemma NestedPairFound(h: Heap, merged: map<ObjId, ObjId>)
    requires Reached(NestedHeap(), h, merged, 0) && 0 in merged && merged[0] == 1 && 2 in merged
    requires 1 !in merged && Unwritten(NestedHeap(), h, 1)
    ensures merged[2] == 3
  {
    var h0 := NestedHeap();
    NestedHeapRefs();
    hide NestedHeap;
    assert Grounded(h0, h, merged, 2, merged[2]);
    var q, k :| q in merged && Field(h0, q, k) == Ref(2) &&
      (Field(h0, merged[q], k) == Ref(merged[2]) || Field(h, merged[q], k) != Field(h0, merged[q], k));
    assert q == 0 && k == "a";
  }

  /** Two objects that each refer to themselves and differ in one field. */
  function CyclicHeap(x: int): Heap
  {
    map[0 := map["self" := Ref(0), "x" := Num(x)],
        1 := map["self" := Ref(1), "x" := Num(2)]]
  }

  lemma ForInTwo(p: Pass, t: ObjId, s: ObjId, k1: string, k2: string)
    requires t in p.heap
    ensures t in KeyStep(p, t, s, k1).heap
    ensures ForIn(p, t, s, [k1, k2]) == KeyStep(KeyStep(p, t, s, k1), t, s, k2)
  {
    assert [k1, k2][..1] == [k1] && [k1][..0] == [];
    assert ForIn(p, t, s, []) == p;
    assert ForIn(p, t, s, [k1]) == KeyStep(p, t, s, k1);
  }

  lemma SelfStep(x: int, st: seq<Pair>, c: bool)
    ensures KeyStep(Pass(CyclicHeap(x), st, c), 0, 1, "self") == Pass(CyclicHeap(x), st + [Pair(0, 1)], c)
  {
    assert Field(CyclicHeap(x), 1, "self") == Ref(1);
    assert Field(CyclicHeap(x), 0, "self") == Ref(0);
  }

  lemma CopyStep(st: seq<Pair>, c: bool)
    ensures KeyStep(Pass(CyclicHeap(1), st, c), 0, 1, "x") == Pass(CyclicHeap(2), st, true)
  {
    var h1, h2 := CyclicHeap(1), CyclicHeap(2);
    assert Field(h1, 1, "x") == Num(2) && Field(h1, 0, "x") == Num(1);
    assert h1[0]["x" := Num(2)] == h2[0];
    assert SetField(h1, 0, "x", Num(2)) == h2;
  }

  lemma SameStep(st: seq<Pair>, c: bool)
    ensures KeyStep(Pass(CyclicHeap(2), st, c), 0, 1, "x") == Pass(CyclicHeap(2), st, c)
  {
    assert Field(CyclicHeap(2), 1, "x") == Num(2) == Field(CyclicHeap(2), 0, "x");
  }

  lemma FirstTurn(ks: seq<string>)
    requires ks == ["self", "x"] || ks == ["x", "self"]
    ensures StepAsWritten(Pass(CyclicHeap(1), [Pair(0, 1)], false), ks)
         == Pass(CyclicHeap(2), [Pair(0, 1)], true)
  {
    var p0 := Pass(CyclicHeap(1), [], false);
    ForInTwo(p0, 0, 1, ks[0], ks[1]);
    if ks[0] == "self" {
      SelfStep(1, [], false);
      CopyStep([Pair(0, 1)], false);
    } else {
      CopyStep([], false);
      SelfStep(2, [], true);
    }
  }

  lemma LaterTurn(ks: seq<string>)
    requires ks == ["self", "x"] || ks == ["x", "self"]
    ensures StepAsWritten(Pass(CyclicHeap(2), [Pair(0, 1)], true), ks)
         == Pass(CyclicHeap(2), [Pair(0, 1)], true)
  {
    var p0 := Pass(CyclicHeap(2), [], true);
    ForInTwo(p0, 0, 1, ks[0], ks[1]);
    if ks[0] == "self" {
      SelfStep(2, [], true);
      SameStep([Pair(0, 1)], true);
    } else {
      SameStep([], true);
      SelfStep(2, [], true);
    }
  }

  /** As written, merging `{self: <itself>, x: 2}` into `{self: <itself>, x: 1}`
      (keys enumerated in either order) copies `x` on the first turn and then
      pushes the pair (target, source) back on every later turn: the loop
      returns to the state it started the turn in, with a non-empty stack, and
      never ends. */
  lemma CyclicMergeNeverEnds(ks: seq<string>)
    requires ks == ["self", "x"] || ks == ["x", "self"]
    ensures StepAsWritten(Pass(CyclicHeap(1), [Pair(0, 1)], false), ks)
         == Pass(CyclicHeap(2), [Pair(0, 1)], true)
    ensures StepAsWritten(Pass(CyclicHeap(2), [Pair(0, 1)], true), ks)
         == Pass(CyclicHeap(2), [Pair(0, 1)], true)
  {
    FirstTurn(ks);
    LaterTurn(ks);
  }
}
