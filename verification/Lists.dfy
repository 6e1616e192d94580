/** Lists and optional values, shared by all modules. */
module Lists {
  datatype Option<T> = None | Some(value: T)

  /** A list with one more item at a position. */
  function InsertedAt<T>(list: seq<T>, at: nat, item: T): seq<T>
    requires at <= |list|
  {
    list[..at] + [item] + list[at..]
  }

  /** A list without the item at a position. */
  function Without<T>(list: seq<T>, at: nat): (rest: seq<T>)
    requires at < |list|
    ensures |rest| == |list| - 1
  {
    list[..at] + list[at + 1..]
  }

  /** The last item of a list behind another one. */
  lemma LastApart<T>(list: seq<T>, more: seq<T>)
    requires more != []
    ensures list + more == list + more[..|more| - 1] + [more[|more| - 1]]
  {
  }

  lemma UpdatedTwice<T>(s: seq<T>, i: nat, a: T, b: T)
    requires i < |s|
    ensures s[i := a][i := b] == s[i := b]
  {
  }

  /** A list with two items exchanged. */
  function Swapped<T>(list: seq<T>, i: nat, j: nat): (list': seq<T>)
    requires i < |list| && j < |list|
    ensures |list'| == |list|
  {
    list[i := list[j]][j := list[i]]
  }
}
