/** Move-to-front on a plain list. */
module MoveToFront {

  function Front(list: seq<nat>, k: nat): (r: seq<nat>)
    requires k < |list|
    ensures |r| == |list|
    ensures r[0] == list[k]
    ensures forall i :: 1 <= i <= k ==> r[i] == list[i - 1]
    ensures forall i :: k < i < |list| ==> r[i] == list[i]
  {
    [list[k]] + list[..k] + list[k + 1..]
  }
}
