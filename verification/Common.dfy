/** What several parts of the kernel's model share. */
module Common {

  datatype Option<+T> = None | Some(value: T)

  /** The status of a process. */
  datatype Status = Running | Waiting | Yielding

  ghost predicate Distinct<T>(s: seq<T>) {
    forall i, j :: 0 <= i < j < |s| ==> s[i] != s[j]
  }

  /** The first position of x, or the length of the list if x is not listed. */
  function IndexOf(list: seq<nat>, x: nat): (i: nat)
    ensures i <= |list| && (i < |list| ==> list[i] == x)
    ensures forall j :: 0 <= j < i ==> list[j] != x
  {
    if list == [] || list[0] == x then 0 else 1 + IndexOf(list[1..], x)
  }
}
