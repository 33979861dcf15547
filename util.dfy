/** Small general-purpose definitions shared by the renderer model:
    an Option type for the optional fields of API records, tabulation,
    and order-preserving de-duplication. */
module Util {

  /** A value that may be absent (a missing key of an API record). */
  datatype Option<+T> = None | Some(value: T) {
    /** The value, or `default` when absent (Python's `d.get(key, default)`). */
    function GetOr(default: T): T {
      match this
      case Some(v) => v
      case None => default
    }
  }

  /** Joining is associative; stated on plain variables so that callers
      need not reason about the parts. */
  lemma AppendAssoc<T>(a: seq<T>, b: seq<T>, c: seq<T>)
    ensures a + b + c == a + (b + c)
  {
  }

  /** No element occurs twice. */
  predicate NoDuplicates<T(==)>(s: seq<T>) {
    forall i, j :: 0 <= i < j < |s| ==> s[i] != s[j]
  }

  /** Index of the first occurrence of `x` in `s`. */
  function FirstIndex<T(==)>(s: seq<T>, x: T): (k: nat)
    requires x in s
    ensures k < |s| && s[k] == x
    ensures forall j :: 0 <= j < k ==> s[j] != x
  {
    if s[0] == x then 0 else 1 + FirstIndex(s[1..], x)
  }

  /** `list(dict.fromkeys(s))`: every element once, at its first occurrence. */
  function Dedup<T(==, !new)>(s: seq<T>): (r: seq<T>)
    ensures NoDuplicates(r)
    ensures forall x :: x in r <==> x in s
    decreases |s|
  {
    if s == [] then []
    else
      var d := Dedup(s[..|s| - 1]);
      var x := s[|s| - 1];
      assert forall y :: y in s <==> y in s[..|s| - 1] || y == x by {
        assert s == s[..|s| - 1] + [x];
      }
      if x in d then d else d + [x]
  }

  lemma {:induction false} FirstIndexPrefix<T>(s: seq<T>, x: T)
    requires s != [] && x in s[..|s| - 1]
    ensures FirstIndex(s, x) == FirstIndex(s[..|s| - 1], x)
    decreases |s|
  {
    var p := s[..|s| - 1];
    if s[0] != x {
      assert p[0] == s[0];
      assert p[1..] == s[1..][..|s[1..]| - 1];
      FirstIndexPrefix(s[1..], x);
    }
  }

  /** The de-duplicated sequence lists elements in the order of their first
      occurrence in the input. */
  lemma {:induction false} DedupKeepsFirstOccurrenceOrder<T(!new)>(s: seq<T>)
    ensures forall i, j :: 0 <= i < j < |Dedup(s)| ==>
              FirstIndex(s, Dedup(s)[i]) < FirstIndex(s, Dedup(s)[j])
    decreases |s|
  {
    if s != [] {
      var p := s[..|s| - 1];
      var x := s[|s| - 1];
      var d := Dedup(p);
      DedupKeepsFirstOccurrenceOrder(p);
      forall y | y in d ensures FirstIndex(s, y) == FirstIndex(p, y) && FirstIndex(p, y) < |p| {
        FirstIndexPrefix(s, y);
      }
      if x !in d {
        assert x !in p;
        assert FirstIndex(s, x) == |s| - 1;
        assert Dedup(s) == d + [x];
      }
    }
  }

  /** `[f(0), ..., f(n - 1)]`. */
  function Tabulate<T>(f: nat -> T, n: nat): (r: seq<T>)
    ensures |r| == n
  {
    if n == 0 then [] else Tabulate(f, n - 1) + [f(n - 1)]
  }

  lemma {:induction false} TabulateAt<T>(f: nat -> T, n: nat, i: nat)
    requires i < n
    ensures Tabulate(f, n)[i] == f(i)
  {
    if i < n - 1 {
      TabulateAt(f, n - 1, i);
    }
  }
}
