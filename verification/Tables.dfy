/** Searching a table of slots. */
module Tables {

  /** Index at or after `from` of the first slot that satisfies `p`, or the size of the table. */
  function First<T>(t: seq<T>, p: T -> bool, from: nat): (i: nat)
    requires from <= |t|
    ensures from <= i <= |t|
    ensures i < |t| ==> p(t[i])
    ensures forall k :: from <= k < i ==> !p(t[k])
    decreases |t| - from
  {
    if from == |t| || p(t[from]) then from else First(t, p, from + 1)
  }
}
