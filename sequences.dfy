/** The two list operations the repositories' queries are built from. */
module Sequences {

  /** Laravel's limit(n): a negative n is ignored, otherwise at most the first n rows. */
  function Limit<T>(s: seq<T>, limit: int): (r: seq<T>)
    ensures r <= s
    ensures |r| == if 0 <= limit < |s| then limit else |s|
  {
    if 0 <= limit < |s| then s[..limit] else s
  }

  /** The rows in the opposite order (a descending orderBy over rows kept in ascending order). */
  function Reverse<T>(s: seq<T>): (r: seq<T>)
    ensures |r| == |s|
    ensures forall i :: 0 <= i < |s| ==> r[i] == s[|s| - 1 - i]
  {
    seq(|s|, i requires 0 <= i < |s| => s[|s| - 1 - i])
  }
}
