/** Element-level effects of the JavaScript array operations the list stores
    use: indexed read and write (a write past the end grows the array with
    holes), `splice` with its clamping of the start index, and the in-place
    swap `swapItems` of lib/utils.ts and lib/list/list-item.ts. */
module Utils {
  import opened Js

  /** `arr[i]`: an element, or what a hole reads as (`undefined`) outside
      the elements. */
  function At<T>(s: seq<T>, i: int, hole: T): (v: T)
    ensures 0 <= i < |s| ==> v == s[i]
    ensures !(0 <= i < |s|) ==> v == hole
  {
    if 0 <= i < |s| then s[i] else hole
  }

  function Holes<T>(n: nat, hole: T): (r: seq<T>)
    ensures |r| == n && forall k :: 0 <= k < n ==> r[k] == hole
  {
    seq(n, _ => hole)
  }

  /** The elements after `arr[i] = v`. A negative index names an ordinary
      property, not an element; an index at or past the end grows the array,
      the gap being holes. */
  function Put<T>(s: seq<T>, i: int, v: T, hole: T): (r: seq<T>)
    ensures i < 0 ==> r == s
    ensures 0 <= i < |s| ==> r == s[i := v]
    ensures i >= |s| ==> |r| == i + 1 && r[..|s|] == s && r[i] == v
    ensures i >= |s| ==> forall k :: |s| <= k < i ==> r[k] == hole
  {
    if i < 0 then s
    else if i < |s| then s[i := v]
    else s + Holes(i - |s|, hole) + [v]
  }

  /** The elements after `tmp = arr[from]; arr[from] = arr[to]; arr[to] = tmp`. */
  function SwapAll<T>(s: seq<T>, from: int, to: int, hole: T): seq<T>
  {
    Put(Put(s, from, At(s, to, hole), hole), to, At(s, from, hole), hole)
  }

  /** The same swap on a sequence whose two indices are elements. */
  function Swap<T>(s: seq<T>, from: int, to: int): (r: seq<T>)
    requires 0 <= from < |s| && 0 <= to < |s|
    ensures |r| == |s|
  {
    s[from := s[to]][to := s[from]]
  }

  /** `swapItems(arr, from, to)` of lib/utils.ts (and its copy in
      lib/list/list-item.ts), updating the array in place. */
  method SwapItems(arr: JsArray, from: int, to: int)
    modifies arr
    ensures arr.elems == SwapAll(old(arr.elems), from, to, Undef)
  {
    var tmp := At(arr.elems, from, Undef);
    arr.elems := Put(arr.elems, from, At(arr.elems, to, Undef), Undef);
    arr.elems := Put(arr.elems, to, tmp, Undef);
  }

  /** After a swap of two elements, each holds what the other held, and the
      length and every other element are unchanged. */
  lemma SwapExchanges<T>(s: seq<T>, from: int, to: int, hole: T)
    requires 0 <= from < |s| && 0 <= to < |s|
    ensures |SwapAll(s, from, to, hole)| == |s|
    ensures SwapAll(s, from, to, hole)[from] == s[to]
    ensures SwapAll(s, from, to, hole)[to] == s[from]
    ensures forall k :: 0 <= k < |s| && k != from && k != to ==> SwapAll(s, from, to, hole)[k] == s[k]
    ensures SwapAll(s, from, to, hole) == Swap(s, from, to)
  {
  }

  /** Swapping the same two elements twice restores the array. */
  lemma SwapInvolution<T>(s: seq<T>, from: int, to: int, hole: T)
    requires 0 <= from < |s| && 0 <= to < |s|
    ensures SwapAll(SwapAll(s, from, to, hole), from, to, hole) == s
  {
    SwapExchanges(s, from, to, hole);
    var t := SwapAll(s, from, to, hole);
    SwapExchanges(t, from, to, hole);
    var u := SwapAll(t, from, to, hole);
    assert forall k :: 0 <= k < |s| ==> u[k] == s[k];
  }

  /** The generic swap is an involution too. */
  lemma SwapTwiceRestores<T>(s: seq<T>, from: int, to: int)
    requires 0 <= from < |s| && 0 <= to < |s|
    ensures Swap(Swap(s, from, to), from, to) == s
  {
    var u := Swap(Swap(s, from, to), from, to);
    assert forall k :: 0 <= k < |s| ==> u[k] == s[k];
  }

  /** `swapItems(arr, i, i)` leaves an array unchanged when `i` is an element
      or negative; at or past the end it writes a hole there, so the array
      grows to `i + 1`. */
  lemma SwapSameIndex<T>(s: seq<T>, i: int, hole: T)
    ensures i < |s| ==> SwapAll(s, i, i, hole) == s
    ensures i >= |s| ==> |SwapAll(s, i, i, hole)| == i + 1 && SwapAll(s, i, i, hole)[..|s|] == s
  {
  }

  /** Two arrays of the same length stay of the same length under the same
      swap, wherever its indices fall. */
  lemma SwapAllSameLength<T, U>(s: seq<T>, t: seq<U>, from: int, to: int, hole: T, hole': U)
    requires |s| == |t|
    ensures |SwapAll(s, from, to, hole)| == |SwapAll(t, from, to, hole')|
  {
  }

  /** Where `splice(i, ...)` starts on an array of length `n`: a negative
      start counts from the end, and the start is clamped into `0..n`. */
  function SpliceStart(i: int, n: nat): (k: nat)
    ensures k <= n
    ensures 0 <= i <= n ==> k == i
    ensures i > n ==> k == n
    ensures i < 0 ==> k == if n + i < 0 then 0 else n + i
  {
    if i < 0 then (if n + i < 0 then 0 else n + i)
    else if i > n then n
    else i
  }

  /** The elements after `splice(i, 0, v)`. */
  function InsertAt<T>(s: seq<T>, i: int, v: T): (r: seq<T>)
    ensures |r| == |s| + 1
    ensures r[SpliceStart(i, |s|)] == v
    ensures r[..SpliceStart(i, |s|)] == s[..SpliceStart(i, |s|)]
    ensures r[SpliceStart(i, |s|) + 1..] == s[SpliceStart(i, |s|)..]
  {
    var k := SpliceStart(i, |s|);
    s[..k] + [v] + s[k..]
  }

  /** The elements after `splice(i, 1)`: nothing is removed when the start
      falls at the end. */
  function DeleteAt<T>(s: seq<T>, i: int): (r: seq<T>)
    ensures SpliceStart(i, |s|) < |s| ==> |r| == |s| - 1
    ensures SpliceStart(i, |s|) == |s| ==> r == s
    ensures SpliceStart(i, |s|) < |s| ==>
      r[..SpliceStart(i, |s|)] == s[..SpliceStart(i, |s|)] &&
      r[SpliceStart(i, |s|)..] == s[SpliceStart(i, |s|) + 1..]
  {
    var k := SpliceStart(i, |s|);
    if k < |s| then s[..k] + s[k + 1..] else s
  }

  /** Where each element of a spliced-in array comes from. */
  lemma InsertAtIndex<T>(s: seq<T>, i: int, v: T, j: int)
    requires 0 <= j < |s| + 1
    ensures var k := SpliceStart(i, |s|);
            InsertAt(s, i, v)[j] == if j < k then s[j] else if j == k then v else s[j - 1]
  {
    var k := SpliceStart(i, |s|);
    var r := InsertAt(s, i, v);
    if j < k {
      assert r[j] == r[..k][j];
    } else if j > k {
      assert r[j] == r[k + 1..][j - k - 1];
    }
  }

  /** Where each element left by `splice(i, 1)` comes from. */
  lemma DeleteAtIndex<T>(s: seq<T>, i: int, j: int)
    requires 0 <= j < |DeleteAt(s, i)|
    ensures var k := SpliceStart(i, |s|);
            DeleteAt(s, i)[j] == if j < k then s[j] else s[j + 1]
  {
    var k := SpliceStart(i, |s|);
    var r := DeleteAt(s, i);
    if k < |s| {
      if j < k {
        assert r[j] == r[..k][j];
      } else {
        assert r[j] == r[k..][j - k];
      }
    }
  }

  /** Where each element after a swap comes from, wherever its indices fall. */
  lemma SwapAllAt<T>(s: seq<T>, from: int, to: int, hole: T, j: int)
    requires 0 <= j < |SwapAll(s, from, to, hole)|
    ensures SwapAll(s, from, to, hole)[j] ==
              if j == to then At(s, from, hole) else if j == from then At(s, to, hole) else At(s, j, hole)
  {
  }

  /** `findIndex` of a test over a sequence: the first index that passes,
      or -1. */
  function FindIndex<T>(s: seq<T>, test: T -> bool): (r: int)
    ensures -1 <= r < |s|
    ensures r >= 0 ==> test(s[r]) && forall k :: 0 <= k < r ==> !test(s[k])
    ensures r == -1 ==> forall k :: 0 <= k < |s| ==> !test(s[k])
  {
    if s == [] then -1
    else if test(s[0]) then 0
    else
      var r := FindIndex(s[1..], test);
      if r < 0 then -1 else r + 1
  }
}
