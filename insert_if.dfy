/** `insertIf`: conditionally insert an element into an array literal. */
module InsertIf {
  /** The element alone when the condition holds, nothing otherwise. */
  function InsertIf<T>(condition: bool, element: T): (r: seq<T>)
    ensures |r| <= 1
    ensures element in r <==> condition
    ensures condition ==> r == [element]
    ensures !condition ==> r == []
  {
    if condition then [element] else []
  }
}
