/** Python's ordering of strings and of tuples of strings, and its `sorted`
    applied to a set: the elements in strictly ascending order. */
module Ordering {

  /** `less` is irreflexive, transitive and relates any two distinct values. */
  ghost predicate StrictTotalOrder<T(!new)>(less: (T, T) -> bool) {
    && (forall a :: !less(a, a))
    && (forall a, b, c :: less(a, b) && less(b, c) ==> less(a, c))
    && (forall a, b :: a != b ==> less(a, b) || less(b, a))
  }

  /** Python's comparison of two sequences: the first position where they
      differ decides, and a proper prefix comes first. */
  function Lex<T(==)>(a: seq<T>, b: seq<T>, less: (T, T) -> bool): bool
    decreases |a|
  {
    if |a| == 0 then |b| > 0
    else if |b| == 0 then false
    else if a[0] == b[0] then Lex(a[1..], b[1..], less)
    else less(a[0], b[0])
  }

  /** Characters compare by code point. */
  function CharLess(a: char, b: char): bool {
    a < b
  }

  /** `a < b` on Python strings. */
  function StrLess(a: string, b: string): bool {
    Lex(a, b, CharLess)
  }

  /** `a < b` on Python tuples of strings. */
  function TupleLess(a: seq<string>, b: seq<string>): bool {
    Lex(a, b, StrLess)
  }

  lemma {:induction false} LexIrreflexive<T(!new)>(a: seq<T>, less: (T, T) -> bool)
    ensures !Lex(a, a, less)
    decreases |a|
  {
    if |a| > 0 {
      LexIrreflexive(a[1..], less);
    }
  }

  lemma {:induction false} LexTransitive<T(!new)>(a: seq<T>, b: seq<T>, c: seq<T>, less: (T, T) -> bool)
    requires StrictTotalOrder(less)
    requires Lex(a, b, less) && Lex(b, c, less)
    ensures Lex(a, c, less)
    decreases |a|
  {
    if |a| > 0 && |b| > 0 && |c| > 0 && a[0] == b[0] && b[0] == c[0] {
      LexTransitive(a[1..], b[1..], c[1..], less);
    }
  }

  lemma {:induction false} LexTotal<T(!new)>(a: seq<T>, b: seq<T>, less: (T, T) -> bool)
    requires StrictTotalOrder(less)
    requires a != b
    ensures Lex(a, b, less) || Lex(b, a, less)
    decreases |a|
  {
    if |a| > 0 && |b| > 0 && a[0] == b[0] {
      assert a == [a[0]] + a[1..] && b == [b[0]] + b[1..];
      LexTotal(a[1..], b[1..], less);
    }
  }

  /** The lexicographic extension of a strict total order is one. */
  lemma LexStrictTotal<T(!new)>(less: (T, T) -> bool)
    requires StrictTotalOrder(less)
    ensures forall a: seq<T> :: !Lex(a, a, less)
    ensures forall a: seq<T>, b: seq<T>, c: seq<T> :: Lex(a, b, less) && Lex(b, c, less) ==> Lex(a, c, less)
    ensures forall a: seq<T>, b: seq<T> :: a != b ==> Lex(a, b, less) || Lex(b, a, less)
  {
    forall a: seq<T> ensures !Lex(a, a, less) {
      LexIrreflexive(a, less);
    }
    forall a: seq<T>, b: seq<T>, c: seq<T> | Lex(a, b, less) && Lex(b, c, less) ensures Lex(a, c, less) {
      LexTransitive(a, b, c, less);
    }
    forall a: seq<T>, b: seq<T> | a != b ensures Lex(a, b, less) || Lex(b, a, less) {
      LexTotal(a, b, less);
    }
  }

  lemma StrLessIsStrictTotal()
    ensures StrictTotalOrder(StrLess)
  {
    LexStrictTotal(CharLess);
  }

  lemma TupleLessIsStrictTotal()
    ensures StrictTotalOrder(TupleLess)
  {
    StrLessIsStrictTotal();
    LexStrictTotal(StrLess);
  }

  /** Every earlier element is below every later one. */
  ghost predicate Ascending<T>(r: seq<T>, less: (T, T) -> bool) {
    forall i, j :: 0 <= i < j < |r| ==> less(r[i], r[j])
  }

  function ToSet<T>(r: seq<T>): set<T> {
    set x | x in r
  }

  /** Places `x` before the first element it is below. */
  function Insert<T(==)>(r: seq<T>, x: T, less: (T, T) -> bool): seq<T> {
    if |r| == 0 then [x]
    else if less(x, r[0]) then [x] + r
    else [r[0]] + Insert(r[1..], x, less)
  }

  lemma {:induction false} InsertAscending<T(!new)>(r: seq<T>, x: T, less: (T, T) -> bool)
    requires StrictTotalOrder(less) && Ascending(r, less) && x !in r
    ensures Ascending(Insert(r, x, less), less)
    ensures ToSet(Insert(r, x, less)) == ToSet(r) + {x}
    ensures |Insert(r, x, less)| == |r| + 1
    decreases |r|
  {
    if |r| > 0 && !less(x, r[0]) {
      InsertAscending(r[1..], x, less);
      var t := Insert(r[1..], x, less);
      assert r == [r[0]] + r[1..];
      forall k | 0 <= k < |t| ensures less(r[0], t[k]) {
        assert t[k] in ToSet(t);
      }
    }
  }

  /** Python's `sorted` of a set of values. */
  method SortSet<T(!new)>(s: set<T>, less: (T, T) -> bool) returns (r: seq<T>)
    requires StrictTotalOrder(less)
    ensures Ascending(r, less)
    ensures ToSet(r) == s && |r| == |s|
  {
    r := [];
    var rest := s;
    while rest != {}
      invariant Ascending(r, less)
      invariant ToSet(r) + rest == s && ToSet(r) !! rest
      invariant |r| + |rest| == |s|
      decreases rest
    {
      var x :| x in rest;
      InsertAscending(r, x, less);
      r := Insert(r, x, less);
      rest := rest - {x};
    }
  }

  /** An ascending sequence holds each of its elements once. */
  lemma AscendingDistinct<T(!new)>(r: seq<T>, less: (T, T) -> bool)
    requires StrictTotalOrder(less) && Ascending(r, less)
    ensures forall i, j :: 0 <= i < j < |r| ==> r[i] != r[j]
  {
  }

  lemma EmptyToSet<T>(a: seq<T>)
    ensures ToSet(a) == {} <==> |a| == 0
  {
    if |a| > 0 {
      assert a[0] in ToSet(a);
    }
  }

  lemma HeadIsLeast<T>(a: seq<T>, x: T, less: (T, T) -> bool)
    requires Ascending(a, less) && x in ToSet(a)
    ensures x == a[0] || less(a[0], x)
  {
    var i :| 0 <= i < |a| && a[i] == x;
  }

  /** An ascending sequence has as many elements as its set. */
  lemma {:induction false} AscendingCard<T(!new)>(r: seq<T>, less: (T, T) -> bool)
    requires StrictTotalOrder(less) && Ascending(r, less)
    ensures |ToSet(r)| == |r|
    decreases |r|
  {
    if |r| > 0 {
      AscendingCard(r[1..], less);
      assert ToSet(r) == {r[0]} + ToSet(r[1..]);
      assert r[0] !in ToSet(r[1..]);
    }
  }

  /** Only one ascending sequence holds a given set of elements, so the
      output of `SortSet` is determined by its input. */
  lemma {:induction false} AscendingUnique<T(!new)>(a: seq<T>, b: seq<T>, less: (T, T) -> bool)
    requires StrictTotalOrder(less) && Ascending(a, less) && Ascending(b, less)
    requires ToSet(a) == ToSet(b)
    ensures a == b
    decreases |a|
  {
    if |a| == 0 || |b| == 0 {
      EmptyToSet(a);
      EmptyToSet(b);
    } else {
      assert a[0] in ToSet(b);
      assert b[0] in ToSet(a);
      HeadIsLeast(a, b[0], less);
      HeadIsLeast(b, a[0], less);
      assert a[0] == b[0];
      assert ToSet(a[1..]) == ToSet(a) - {a[0]} by {
        forall x | x in ToSet(a) - {a[0]} ensures x in ToSet(a[1..]) {
          var i :| 0 <= i < |a| && a[i] == x;
        }
      }
      assert ToSet(b[1..]) == ToSet(b) - {b[0]} by {
        forall x | x in ToSet(b) - {b[0]} ensures x in ToSet(b[1..]) {
          var i :| 0 <= i < |b| && b[i] == x;
        }
      }
      AscendingUnique(a[1..], b[1..], less);
      assert a == [a[0]] + a[1..] && b == [b[0]] + b[1..];
    }
  }

  /** `c` is obtained from `s` by deleting elements. */
  predicate IsSubsequence<T(==)>(c: seq<T>, s: seq<T>)
    decreases |s|
  {
    if |c| == 0 then true
    else if |s| == 0 then false
    else (c[0] == s[0] && IsSubsequence(c[1..], s[1..])) || IsSubsequence(c, s[1..])
  }
}
