/** Strings that end at a terminator, and sequences in pieces. */
module Sequences {

  datatype Option<T> = None | Some(value: T)

  /** Everything before the first end; all of it if there is none. */
  function UpTo<T(==)>(s: seq<T>, end: T): (r: seq<T>)
    ensures r <= s && end !in r && (|r| < |s| ==> s[|r|] == end)
  {
    if s == [] || s[0] == end then [] else [s[0]] + UpTo(s[1..], end)
  }

  lemma {:induction false} UpToFirst<T>(s: seq<T>, end: T, k: nat)
    requires k < |s| && s[k] == end && forall i :: 0 <= i < k ==> s[i] != end
    ensures UpTo(s, end) == s[..k]
  {
    if k == 0 {
    } else {
      UpToFirst(s[1..], end, k - 1);
      assert s[..k] == [s[0]] + s[1..][..k - 1];
    }
  }

  lemma {:induction false} UpToBeyond<T>(a: seq<T>, b: seq<T>, end: T)
    requires forall i :: 0 <= i < |a| ==> a[i] != end
    ensures UpTo(a + b, end) == a + UpTo(b, end)
  {
    if a == [] {
      assert a + b == b;
    } else {
      assert (a + b)[1..] == a[1..] + b;
      UpToBeyond(a[1..], b, end);
    }
  }

  function Concat<T>(parts: seq<seq<T>>): seq<T> {
    if parts == [] then [] else Concat(parts[..|parts| - 1]) + parts[|parts| - 1]
  }
}
