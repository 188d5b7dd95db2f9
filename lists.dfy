/** Positional removal and first-index search, shared by the task queue
    (`list.pop`) and the order lists of the task manager (`list.remove`
    and its fallback loop). */
module Lists {
  import opened Wrappers

  /** The list without its element at 0-based position `k`: the elements
      before `k` keep their places, those after it move up by one, and the
      removed element is the only one missing. */
  function DropAt<T>(s: seq<T>, k: int): (r: seq<T>)
    requires 0 <= k < |s|
    ensures |r| == |s| - 1
    ensures forall j | 0 <= j < k :: r[j] == s[j]
    ensures forall j | k <= j < |r| :: r[j] == s[j + 1]
    ensures multiset(r) + multiset{s[k]} == multiset(s)
  {
    assert s == s[..k] + [s[k]] + s[k + 1..];
    s[..k] + s[k + 1..]
  }

  /** The first position holding `x`, None when there is none. */
  function IndexOf<T(==)>(s: seq<T>, x: T): (r: Option<nat>)
    ensures r.Some? ==> r.value < |s| && s[r.value] == x
    ensures r.Some? ==> forall j | 0 <= j < r.value :: s[j] != x
    ensures r.None? <==> forall j | 0 <= j < |s| :: s[j] != x
  {
    if |s| == 0 then None
    else if s[0] == x then Some(0)
    else match IndexOf(s[1..], x)
      case None => None
      case Some(k) => Some(k + 1)
  }

  /** `IndexOf` finds the first occurrence. */
  lemma IndexOfIsFirst<T>(s: seq<T>, x: T, k: nat)
    requires k < |s| && s[k] == x
    requires forall j | 0 <= j < k :: s[j] != x
    ensures IndexOf(s, x) == Some(k)
  {
  }
}
