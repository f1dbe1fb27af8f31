/** Small shared vocabulary: an optional value and duplicate-freedom of a sequence. */
module Common {

  datatype Option<+T> = None | Some(value: T)

  /** No value occurs twice in `s`. */
  predicate NoDuplicates<T(==)>(s: seq<T>) {
    forall i, j :: 0 <= i < j < |s| ==> s[i] != s[j]
  }

  /** The set of values occurring in `s`. */
  function Elems<T>(s: seq<T>): set<T> {
    set x | x in s
  }

  /** Appending one value adds exactly that value to the elements. */
  lemma ElemsAppend<T>(s: seq<T>, x: T)
    ensures Elems(s + [x]) == Elems(s) + {x}
  {
    assert forall y :: y in s + [x] <==> y in s || y == x;
  }

  /** Extending a prefix by one position adds exactly the value at that position. */
  lemma ElemsPrefixStep<T>(s: seq<T>, i: nat)
    requires i < |s|
    ensures Elems(s[..i + 1]) == Elems(s[..i]) + {s[i]}
  {
    assert s[..i + 1] == s[..i] + [s[i]];
    ElemsAppend(s[..i], s[i]);
  }

  /** Appending a value not yet present keeps a sequence duplicate-free. */
  lemma NoDuplicatesAppend<T>(s: seq<T>, x: T)
    requires NoDuplicates(s)
    requires x !in Elems(s)
    ensures NoDuplicates(s + [x])
    ensures Elems(s + [x]) == Elems(s) + {x}
  {
    ElemsAppend(s, x);
    forall i, j | 0 <= i < j < |s + [x]|
      ensures (s + [x])[i] != (s + [x])[j]
    {
      if j == |s| {
        assert (s + [x])[i] == s[i];
        assert s[i] in Elems(s);
      }
    }
  }

  /** The elements of a two-element sequence. */
  lemma ElemsOfPair<T>(s: seq<T>, a: T, b: T)
    requires s == [a, b]
    ensures Elems(s) == {a, b}
  {
    assert forall x :: x in s <==> x == a || x == b;
  }
}
