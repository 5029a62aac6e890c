/**
 * Lexicographic comparison of sequences, in the sense of the C++ standard
 * library's std::lexicographical_compare: `a` is less than `b` when at the
 * first position where they differ `a` holds the smaller element, or when
 * `a` is a proper prefix of `b`.  The comparisons of std::vector rows, of
 * boards and of strings in this model are all instances of it.
 */
module Lex {
  /** `lt` is irreflexive, transitive and relates any two distinct values. */
  ghost predicate IsStrictTotalOrder<T(!new)>(lt: (T, T) -> bool)
  {
    (forall x :: !lt(x, x)) &&
    (forall x, y, z :: lt(x, y) && lt(y, z) ==> lt(x, z)) &&
    (forall x, y :: x != y ==> lt(x, y) || lt(y, x))
  }

  predicate LexLess<T(==)>(lt: (T, T) -> bool, a: seq<T>, b: seq<T>)
  {
    if |a| == 0 then |b| > 0
    else if |b| == 0 then false
    else lt(a[0], b[0]) || (a[0] == b[0] && LexLess(lt, a[1..], b[1..]))
  }

  lemma {:induction false} LexIrreflexive<T(!new)>(lt: (T, T) -> bool, a: seq<T>)
    requires IsStrictTotalOrder(lt)
    ensures !LexLess(lt, a, a)
    decreases |a|
  {
    if |a| > 0 {
      LexIrreflexive(lt, a[1..]);
    }
  }

  lemma {:induction false} LexTransitive<T(!new)>(lt: (T, T) -> bool, a: seq<T>, b: seq<T>, c: seq<T>)
    requires IsStrictTotalOrder(lt)
    requires LexLess(lt, a, b) && LexLess(lt, b, c)
    ensures LexLess(lt, a, c)
    decreases |a|
  {
    if |a| > 0 && |b| > 0 && |c| > 0 && a[0] == b[0] && b[0] == c[0] {
      LexTransitive(lt, a[1..], b[1..], c[1..]);
    }
  }

  lemma {:induction false} LexTotal<T(!new)>(lt: (T, T) -> bool, a: seq<T>, b: seq<T>)
    requires IsStrictTotalOrder(lt)
    requires a != b
    ensures LexLess(lt, a, b) || LexLess(lt, b, a)
    decreases |a|
  {
    if |a| > 0 && |b| > 0 && a[0] == b[0] {
      assert a == [a[0]] + a[1..] && b == [b[0]] + b[1..];
      LexTotal(lt, a[1..], b[1..]);
    }
  }

  /** Lexicographic order over a strict total order is again one. */
  lemma LexIsStrictTotalOrder<T(!new)>(lt: (T, T) -> bool, lex: (seq<T>, seq<T>) -> bool)
    requires IsStrictTotalOrder(lt)
    requires forall a, b :: lex(a, b) == LexLess(lt, a, b)
    ensures IsStrictTotalOrder(lex)
  {
    forall a: seq<T> ensures !lex(a, a) {
      LexIrreflexive(lt, a);
    }
    forall a: seq<T>, b: seq<T>, c: seq<T> | lex(a, b) && lex(b, c)
      ensures lex(a, c)
    {
      LexTransitive(lt, a, b, c);
    }
    forall a: seq<T>, b: seq<T> | a != b ensures lex(a, b) || lex(b, a) {
      LexTotal(lt, a, b);
    }
  }

  predicate NatLess(x: nat, y: nat) { x < y }

  predicate CharLess(x: char, y: char) { x < y }

  /** std::vector<unsigned>::operator< on one row of a board. */
  predicate RowLess(a: seq<nat>, b: seq<nat>) { LexLess(NatLess, a, b) }

  /** std::vector<std::vector<unsigned>>::operator< on the cells of two boards. */
  predicate GridLess(a: seq<seq<nat>>, b: seq<seq<nat>>) { LexLess(RowLess, a, b) }

  /** std::string::operator<, comparing characters by code. */
  predicate StrLess(a: string, b: string) { LexLess(CharLess, a, b) }

  lemma RowLessIsStrictTotalOrder()
    ensures IsStrictTotalOrder(RowLess)
  {
    assert IsStrictTotalOrder(NatLess);
    LexIsStrictTotalOrder(NatLess, RowLess);
  }

  lemma GridLessIsStrictTotalOrder()
    ensures IsStrictTotalOrder(GridLess)
  {
    RowLessIsStrictTotalOrder();
    LexIsStrictTotalOrder(RowLess, GridLess);
  }

  lemma StrLessIsStrictTotalOrder()
    ensures IsStrictTotalOrder(StrLess)
  {
    assert IsStrictTotalOrder(CharLess);
    LexIsStrictTotalOrder(CharLess, StrLess);
  }
}
