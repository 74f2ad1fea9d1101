/** Taking one element out of a sequence. */
module Sequences {
  function Without<T>(s: seq<T>, k: nat): (r: seq<T>)
    requires k < |s|
    ensures |r| == |s| - 1 && forall i | 0 <= i < |r| :: r[i] == s[if i < k then i else i + 1]
    ensures forall x | x in r :: x in s
  {
    s[..k] + s[k + 1..]
  }
}
