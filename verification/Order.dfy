/** The order of std::map keys and of std::sort on strings: lexicographic by byte. */
module Order {
  import opened Text

  predicate LexLe(a: Bytes, b: Bytes) {
    a == [] || (b != [] && (a[0] < b[0] || (a[0] == b[0] && LexLe(a[1..], b[1..]))))
  }

  lemma {:induction false} LexTotal(a: Bytes, b: Bytes)
    ensures LexLe(a, b) || LexLe(b, a)
  {
    if a != [] && b != [] && a[0] == b[0] {
      LexTotal(a[1..], b[1..]);
    }
  }

  lemma {:induction false} LexTransitive(a: Bytes, b: Bytes, c: Bytes)
    requires LexLe(a, b) && LexLe(b, c)
    ensures LexLe(a, c)
  {
    if a != [] && a[0] == b[0] == c[0] {
      LexTransitive(a[1..], b[1..], c[1..]);
    }
  }

  lemma {:induction false} LexAntisymmetric(a: Bytes, b: Bytes)
    requires LexLe(a, b) && LexLe(b, a)
    ensures a == b
  {
    if a != [] {
      LexAntisymmetric(a[1..], b[1..]);
      assert a == [a[0]] + a[1..] && b == [b[0]] + b[1..];
    }
  }

  ghost predicate IsLeast(x: Bytes, keys: set<Bytes>) {
    x in keys && forall y | y in keys :: LexLe(x, y)
  }

  lemma LeastExists(keys: set<Bytes>)
    requires keys != {}
    ensures exists x :: IsLeast(x, keys)
  {
    var x :| x in keys;
    LexTotal(x, x);
    var rest := keys - {x};
    if rest == {} {
      assert keys == {x};
      assert IsLeast(x, keys);
    } else {
      LeastExists(rest);
      var y :| IsLeast(y, rest);
      LexTotal(x, y);
      var least := if LexLe(x, y) then x else y;
      forall z | z in keys ensures LexLe(least, z) {
        if z != x {
          assert z in rest;
          if least == x {
            LexTransitive(x, y, z);
          }
        }
      }
      assert IsLeast(least, keys);
    }
  }

  /** The keys of a std::map in the order iteration visits them. */
  ghost function KeysInOrder(keys: set<Bytes>): (order: seq<Bytes>)
    ensures forall x :: x in order <==> x in keys
    ensures |order| == |keys|
    decreases |keys|
  {
    if keys == {} then []
    else
      LeastExists(keys);
      var x :| IsLeast(x, keys);
      [x] + KeysInOrder(keys - {x})
  }

  lemma KeysInOrderCons(keys: set<Bytes>, x: Bytes)
    requires IsLeast(x, keys)
    ensures KeysInOrder(keys) == [x] + KeysInOrder(keys - {x})
  {
    forall y | IsLeast(y, keys) ensures y == x {
      LexAntisymmetric(x, y);
    }
  }

  lemma KeysInOrderEmpty()
    ensures KeysInOrder({}) == []
  {
  }

  /** Walks a map's keys as iterating over a std::map does. */
  method InKeyOrder(keys: set<Bytes>) returns (order: seq<Bytes>)
    ensures order == KeysInOrder(keys)
  {
    hide KeysInOrder;
    order := [];
    var rest := keys;
    KeysInOrderEmpty();
    while rest != {}
      invariant order + KeysInOrder(rest) == KeysInOrder(keys)
    {
      LeastExists(rest);
      var x :| x in rest && forall y | y in rest :: LexLe(x, y);
      KeysInOrderCons(rest, x);
      assert order + ([x] + KeysInOrder(rest - {x})) == order + [x] + KeysInOrder(rest - {x});
      order := order + [x];
      rest := rest - {x};
    }
  }

  ghost predicate Sorted(texts: seq<Bytes>) {
    forall i, j | 0 <= i < j < |texts| :: LexLe(texts[i], texts[j])
  }

  /** That order is ascending, each key once. */
  lemma {:induction false} KeysInOrderSorted(keys: set<Bytes>)
    ensures Sorted(KeysInOrder(keys))
    ensures forall i, j | 0 <= i < j < |KeysInOrder(keys)| :: KeysInOrder(keys)[i] != KeysInOrder(keys)[j]
    decreases |keys|
  {
    hide KeysInOrder;
    if keys == {} {
      KeysInOrderEmpty();
    } else {
      LeastExists(keys);
      var x :| IsLeast(x, keys);
      KeysInOrderCons(keys, x);
      KeysInOrderSorted(keys - {x});
      var rest := KeysInOrder(keys - {x});
      assert forall i | 0 <= i < |rest| :: rest[i] in rest && rest[i] in keys - {x};
    }
  }

  function Insert(text: Bytes, sorted: seq<Bytes>): seq<Bytes> {
    if sorted == [] || LexLe(text, sorted[0]) then [text] + sorted
    else [sorted[0]] + Insert(text, sorted[1..])
  }

  /** std::sort on strings. */
  function SortTexts(texts: seq<Bytes>): seq<Bytes> {
    if texts == [] then [] else Insert(texts[0], SortTexts(texts[1..]))
  }

  lemma {:induction false} InsertKeeps(text: Bytes, sorted: seq<Bytes>)
    requires Sorted(sorted)
    ensures Sorted(Insert(text, sorted))
    ensures multiset(Insert(text, sorted)) == multiset(sorted) + multiset{text}
  {
    hide LexLe;
    if sorted != [] {
      assert sorted == [sorted[0]] + sorted[1..];
      if LexLe(text, sorted[0]) {
        forall i | 0 <= i < |sorted| ensures LexLe(text, sorted[i]) {
          if i > 0 {
            LexTransitive(text, sorted[0], sorted[i]);
          }
        }
      } else {
        var rest := Insert(text, sorted[1..]);
        InsertKeeps(text, sorted[1..]);
        LexTotal(text, sorted[0]);
        forall i | 0 <= i < |rest| ensures LexLe(sorted[0], rest[i]) {
          assert rest[i] in multiset(rest);
          assert rest[i] in sorted[1..] || rest[i] == text;
        }
      }
    }
  }

  lemma {:induction false} SortTextsSorts(texts: seq<Bytes>)
    ensures Sorted(SortTexts(texts))
    ensures multiset(SortTexts(texts)) == multiset(texts)
  {
    if texts != [] {
      SortTextsSorts(texts[1..]);
      InsertKeeps(texts[0], SortTexts(texts[1..]));
      assert texts == [texts[0]] + texts[1..];
    }
  }

  /** The order of std::string: by the first byte that differs, a prefix before what it is a prefix of. */
  lemma {:induction false} LexExact(a: Bytes, b: Bytes)
    ensures LexLe(a, b) <==> a <= b || exists i :: 0 <= i < |a| && i < |b| && a[..i] == b[..i] && a[i] < b[i]
  {
    if a != [] && b != [] && a[0] == b[0] {
      LexExact(a[1..], b[1..]);
      assert a <= b <==> a[1..] <= b[1..] by {
        assert a == [a[0]] + a[1..] && b == [b[0]] + b[1..];
      }
      if i :| 0 <= i < |a[1..]| && i < |b[1..]| && a[1..][..i] == b[1..][..i] && a[1..][i] < b[1..][i] {
        assert a[..i + 1] == [a[0]] + a[1..][..i] && b[..i + 1] == [b[0]] + b[1..][..i] && a[i + 1] < b[i + 1];
      }
      if i :| 0 <= i < |a| && i < |b| && a[..i] == b[..i] && a[i] < b[i] {
        assert i > 0;
        assert a[1..][..i - 1] == a[..i][1..] && b[1..][..i - 1] == b[..i][1..] && a[1..][i - 1] < b[1..][i - 1];
      }
    } else if a != [] && b != [] && a[0] < b[0] {
      assert a[..0] == b[..0];
    } else if a != [] && b != [] {
      assert forall i | 0 < i < |a| && i < |b| && a[..i] == b[..i] :: a[..i][0] == b[..i][0];
    }
  }
}
