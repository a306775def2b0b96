// Small vocabulary shared by every module.
module Prelude {

  datatype Option<+T> = None | Some(value: T)

  newtype byte = x: int | 0 <= x < 256

  type Bytes = seq<byte>

  // The values of s that satisfy keep, in order (filterSlice, utilities.go).
  function Filter<T>(s: seq<T>, keep: T -> bool): seq<T> {
    if s == [] then [] else (if keep(s[0]) then [s[0]] else []) + Filter(s[1..], keep)
  }

  lemma {:induction false} FilterMembers<T>(s: seq<T>, keep: T -> bool)
    ensures forall x :: x in Filter(s, keep) <==> x in s && keep(x)
  {
    if s != [] {
      FilterMembers(s[1..], keep);
      assert s == [s[0]] + s[1..];
    }
  }

  lemma Assoc<T>(a: seq<T>, b: seq<T>, c: seq<T>)
    ensures (a + b) + c == a + (b + c)
  {
  }

  // filterSlice (groove/proxy/utilities.go).
  method FilterSlice<T>(s: seq<T>, keep: T -> bool) returns (filtered: seq<T>)
    ensures filtered == Filter(s, keep)
  {
    filtered := [];
    for i := 0 to |s|
      invariant filtered + Filter(s[i..], keep) == Filter(s, keep)
    {
      assert s[i..][1..] == s[i + 1..];
      if keep(s[i]) {
        Assoc(filtered, [s[i]], Filter(s[i + 1..], keep));
        filtered := filtered + [s[i]];
      }
    }
  }

  // s without its element at j.
  function DropAt<T>(s: seq<T>, j: nat): (rest: seq<T>)
    requires j < |s|
    ensures |rest| == |s| - 1
    ensures forall i :: 0 <= i < |rest| ==> rest[i] == if i < j then s[i] else s[i + 1]
  {
    s[..j] + s[j + 1..]
  }
}
