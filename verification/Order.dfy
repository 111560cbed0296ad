/** Lexicographic order, and the sorted lists a B-tree map or `sort` + `dedup` yields. */
module Order {

  type Less<!T> = (T, T) -> bool

  ghost predicate StrictTotal<T(!new)>(less: Less<T>) {
    && (forall a :: !less(a, a))
    && (forall a, b, c :: less(a, b) && less(b, c) ==> less(a, c))
    && (forall a, b :: a != b ==> less(a, b) || less(b, a))
  }

  /** Byte order of text, component order of paths: a proper prefix comes first. */
  predicate Lex<T(==)>(less: Less<T>, a: seq<T>, b: seq<T>) {
    if b == [] then false
    else if a == [] then true
    else less(a[0], b[0]) || (a[0] == b[0] && Lex(less, a[1..], b[1..]))
  }

  function LexOf<T(==)>(less: Less<T>): Less<seq<T>> { (a, b) => Lex(less, a, b) }

  lemma {:induction false} LexIrreflexive<T(!new)>(less: Less<T>, a: seq<T>)
    requires StrictTotal(less)
    ensures !Lex(less, a, a)
  {
    if a != [] { LexIrreflexive(less, a[1..]); }
  }

  lemma {:induction false} LexTransitive<T(!new)>(less: Less<T>, a: seq<T>, b: seq<T>, c: seq<T>)
    requires StrictTotal(less) && Lex(less, a, b) && Lex(less, b, c)
    ensures Lex(less, a, c)
  {
    if a != [] && a[0] == b[0] && b[0] == c[0] {
      LexTransitive(less, a[1..], b[1..], c[1..]);
    }
  }

  lemma {:induction false} LexConnected<T(!new)>(less: Less<T>, a: seq<T>, b: seq<T>)
    requires StrictTotal(less) && a != b
    ensures Lex(less, a, b) || Lex(less, b, a)
  {
    if a != [] && b != [] && a[0] == b[0] {
      assert a == [a[0]] + a[1..] && b == [b[0]] + b[1..];
      LexConnected(less, a[1..], b[1..]);
    }
  }

  lemma LexTotal<T(!new)>(less: Less<T>)
    requires StrictTotal(less)
    ensures StrictTotal(LexOf(less))
  {
    var lex := LexOf(less);
    forall a ensures !lex(a, a) { LexIrreflexive(less, a); }
    forall a, b, c | lex(a, b) && lex(b, c) ensures lex(a, c) { LexTransitive(less, a, b, c); }
    forall a, b | a != b ensures lex(a, b) || lex(b, a) { LexConnected(less, a, b); }
  }

  /** A proper extension never comes before what it extends. */
  lemma {:induction false} PrefixFirst<T(!new)>(less: Less<T>, a: seq<T>, b: seq<T>)
    requires StrictTotal(less) && a <= b
    ensures !Lex(less, b, a)
  {
    if a != [] {
      assert a[0] == b[0] && a[1..] <= b[1..];
      PrefixFirst(less, a[1..], b[1..]);
    }
  }

  function CharLess(): Less<char> { (a, b) => a < b }

  function StringLess(): Less<string> { LexOf(CharLess()) }

  function PathLess(): Less<seq<string>> { LexOf(StringLess()) }

  lemma StringsTotal()
    ensures StrictTotal(StringLess()) && StrictTotal(PathLess())
  {
    LexTotal(CharLess());
    LexTotal(StringLess());
  }

  // ---------------------------------------------------------------------
  // Sorted association lists
  // ---------------------------------------------------------------------

  /** Strictly increasing keys. */
  ghost predicate Sorted<K, V>(less: Less<K>, es: seq<(K, V)>) {
    forall i, j :: 0 <= i < j < |es| ==> less(es[i].0, es[j].0)
  }

  /** `BTreeMap::insert`: the last value given for a key stands. */
  function Put<K(==), V>(less: Less<K>, es: seq<(K, V)>, k: K, v: V): seq<(K, V)> {
    if es == [] then [(k, v)]
    else if es[0].0 == k then [(k, v)] + es[1..]
    else if less(k, es[0].0) then [(k, v)] + es
    else [es[0]] + Put(less, es[1..], k, v)
  }

  lemma {:induction false} PutMembers<K(!new), V(!new)>(less: Less<K>, es: seq<(K, V)>, k: K, v: V)
    requires StrictTotal(less) && Sorted(less, es)
    ensures Sorted(less, Put(less, es, k, v))
    ensures forall e :: e in Put(less, es, k, v) <==> e == (k, v) || (e in es && e.0 != k)
  {
    if es == [] {
    } else if es[0].0 == k {
      assert es == [es[0]] + es[1..];
      forall e | e in es[1..] ensures e.0 != k {
        var i :| 0 <= i < |es| - 1 && es[1..][i] == e;
        assert less(es[0].0, es[i + 1].0);
      }
    } else if less(k, es[0].0) {
      forall e | e in es ensures less(k, e.0) {
        var i :| 0 <= i < |es| && es[i] == e;
        if i > 0 { assert less(es[0].0, es[i].0); }
      }
    } else {
      assert es == [es[0]] + es[1..];
      PutMembers(less, es[1..], k, v);
      var tail := Put(less, es[1..], k, v);
      forall e | e in tail ensures less(es[0].0, e.0) {
        if e != (k, v) { var i :| 0 <= i < |es| - 1 && es[1..][i] == e; assert less(es[0].0, es[i + 1].0); }
      }
    }
  }

  lemma FirstIsLeast<K(!new), V(!new)>(less: Less<K>, a: seq<(K, V)>, e: (K, V))
    requires StrictTotal(less) && Sorted(less, a) && e in a
    ensures e == a[0] || less(a[0].0, e.0)
  {
    var i :| 0 <= i < |a| && a[i] == e;
  }

  lemma TailMembers<K(!new), V(!new)>(less: Less<K>, a: seq<(K, V)>, e: (K, V))
    requires StrictTotal(less) && Sorted(less, a) && a != []
    ensures e in a[1..] <==> e in a && e != a[0]
  {
    assert a == [a[0]] + a[1..];
    if e in a[1..] {
      var i :| 0 <= i < |a| - 1 && a[1..][i] == e;
      assert less(a[0].0, a[i + 1].0);
    }
  }

  /** Sorted lists with the same elements are the same list. */
  lemma {:induction false} SortedUnique<K(!new), V(!new)>(less: Less<K>, a: seq<(K, V)>, b: seq<(K, V)>)
    requires StrictTotal(less) && Sorted(less, a) && Sorted(less, b)
    requires forall e :: e in a <==> e in b
    ensures a == b
    decreases |a|
  {
    if b != [] { assert b[0] in a; }
    if a != [] {
      assert a[0] in b;
      assert b[0] in a;
      FirstIsLeast(less, a, b[0]);
      FirstIsLeast(less, b, a[0]);
      assert a == [a[0]] + a[1..] && b == [b[0]] + b[1..];
      forall e ensures e in a[1..] <==> e in b[1..] { TailMembers(less, a, e); TailMembers(less, b, e); }
      SortedUnique(less, a[1..], b[1..]);
    }
  }
}
