/** Small building blocks shared by the player model: an optional value and
    the semantics of java.util.List.remove(Object). */
module Collections {

  /** A value that may be absent: the model of a Java reference that may be null. */
  datatype Option<T> = None | Some(value: T)

  /** List.remove(Object): drops the first element equal to `x`, keeps the
      order of the others, and leaves the list alone when `x` is absent. */
  function RemoveFirst<T(==)>(s: seq<T>, x: T): (r: seq<T>)
    ensures x in s ==> |r| == |s| - 1
    ensures x !in s ==> r == s
    ensures multiset(r) == multiset(s) - multiset{x}
  {
    if s == [] then []
    else
      assert s == [s[0]] + s[1..];
      if s[0] == x then s[1..] else [s[0]] + RemoveFirst(s[1..], x)
  }

  /** A non-empty sequence is its prefix followed by its last element. */
  lemma SplitLast<T>(s: seq<T>)
    requires s != []
    ensures s == s[..|s| - 1] + [s[|s| - 1]]
  {
  }

  /** An element other than `x` at the front stays at the front. */
  lemma RemoveFirstSkip<T>(y: T, t: seq<T>, x: T)
    requires y != x
    ensures RemoveFirst([y] + t, x) == [y] + RemoveFirst(t, x)
  {
    assert ([y] + t)[0] == y && ([y] + t)[1..] == t;
  }

  /** Removing the first occurrence at index `i` leaves exactly the prefix
      before it followed by the suffix after it. */
  lemma {:induction false} RemoveFirstAt<T>(s: seq<T>, x: T, i: nat)
    requires i < |s| && s[i] == x && x !in s[..i]
    ensures RemoveFirst(s, x) == s[..i] + s[i + 1..]
  {
    if i == 0 {
      assert s[..0] + s[1..] == s[1..];
    } else {
      var t := s[1..];
      var y := s[0];
      assert s == [y] + t;
      assert y in s[..i];
      assert y != x;
      assert t[..i - 1] == s[1..i];
      assert x !in t[..i - 1];
      RemoveFirstAt(t, x, i - 1);
      RemoveFirstSkip(y, t, x);
      var r := t[..i - 1] + t[i..];
      assert RemoveFirst(s, x) == [y] + r;
      SplitAgain(s, i);
    }
  }

  /** Deleting index i of `s` is its head followed by the tail with index
      i - 1 deleted. */
  lemma SplitAgain<T>(s: seq<T>, i: nat)
    requires 0 < i < |s|
    ensures [s[0]] + (s[1..][..i - 1] + s[1..][i..]) == s[..i] + s[i + 1..]
  {
    var t := s[1..];
    assert t[..i - 1] == s[1..i];
    assert t[i..] == s[i + 1..];
    assert s[..i] == [s[0]] + s[1..i];
  }
}
