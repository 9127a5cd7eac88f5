/**
 * Sequence combinators that stand for the stream pipelines of the source
 * (`filter`, `sorted(...).reversed()`, `limit`, `groupingBy(..., counting())`).
 */
module Seqs {
  import opened Common

  /** The elements of `s` that satisfy `p`, in their original order. */
  function Filter<T>(s: seq<T>, p: T -> bool): (r: seq<T>)
    ensures |r| <= |s|
  {
    if s == [] then []
    else if p(s[0]) then [s[0]] + Filter(s[1..], p)
    else Filter(s[1..], p)
  }

  /** Every survivor satisfies `p`, and every element of `s` that satisfies `p` survives. */
  lemma {:induction false} FilterProps<T>(s: seq<T>, p: T -> bool)
    ensures forall i :: 0 <= i < |Filter(s, p)| ==> p(Filter(s, p)[i])
    ensures forall i :: 0 <= i < |s| && p(s[i]) ==> s[i] in Filter(s, p)
  {
    if s != [] {
      FilterProps(s[1..], p);
      var rest := Filter(s[1..], p);
      forall i | 0 <= i < |s| && p(s[i]) ensures s[i] in Filter(s, p) {
        if i > 0 {
          assert s[i] == s[1..][i - 1];
        }
      }
      if p(s[0]) {
        forall i | 0 <= i < |Filter(s, p)| ensures p(Filter(s, p)[i]) {
          if i > 0 {
            assert Filter(s, p)[i] == rest[i - 1];
          }
        }
      }
    }
  }

  /** Filtering only drops elements: every survivor, with its multiplicity, comes from `s`. */
  lemma {:induction false} FilterSub<T>(s: seq<T>, p: T -> bool)
    ensures multiset(Filter(s, p)) <= multiset(s)
    ensures forall i :: 0 <= i < |Filter(s, p)| ==> Filter(s, p)[i] in multiset(s)
  {
    if s != [] {
      assert s == [s[0]] + s[1..];
      FilterSub(s[1..], p);
    }
  }

  /** Filtering keeps every occurrence of each element that satisfies `p`, and nothing else. */
  lemma {:induction false} FilterMultiset<T>(s: seq<T>, p: T -> bool)
    ensures multiset(Filter(s, p)) <= multiset(s)
    ensures forall x :: multiset(Filter(s, p))[x] == if p(x) then multiset(s)[x] else 0
  {
    if s != [] {
      assert s == [s[0]] + s[1..];
      FilterMultiset(s[1..], p);
    }
  }

  /** The positions of `s` whose element satisfies `p`. */
  ghost function Posicoes<T>(s: seq<T>, p: T -> bool): (r: set<int>)
    ensures forall i :: i in r <==> 0 <= i < |s| && p(s[i])
  {
    set i | 0 <= i < |s| && p(s[i])
  }

  /** The number of survivors is the number of positions of `s` whose element satisfies `p`. */
  lemma {:induction false} FilterCount<T>(s: seq<T>, p: T -> bool)
    ensures |Filter(s, p)| == |Posicoes(s, p)|
  {
    if s != [] {
      var init, x := s[..|s| - 1], s[|s| - 1];
      assert s == init + [x];
      FilterAppend(init, x, p);
      FilterCount(init, p);
      assert Posicoes(s, p) == Posicoes(init, p) + (if p(x) then {|init|} else {});
      assert |init| !in Posicoes(init, p);
    }
  }

  /** Filtering a sequence extended by one element extends the result by that element when it passes. */
  lemma {:induction false} FilterAppend<T>(s: seq<T>, x: T, p: T -> bool)
    ensures Filter(s + [x], p) == Filter(s, p) + (if p(x) then [x] else [])
  {
    if s == [] {
      assert s + [x] == [x];
    } else {
      assert (s + [x])[1..] == s[1..] + [x];
      FilterAppend(s[1..], x, p);
    }
  }

  /** Replacing one element changes the number of survivors by what the old and the new element contribute. */
  lemma {:induction false} FilterUpdate<T>(s: seq<T>, k: int, y: T, p: T -> bool)
    requires 0 <= k < |s|
    ensures |Filter(s[k := y], p)| == |Filter(s, p)| - (if p(s[k]) then 1 else 0) + (if p(y) then 1 else 0)
  {
    if k == 0 {
      assert s[k := y][1..] == s[1..];
    } else {
      assert s[k := y][1..] == s[1..][k - 1 := y];
      FilterUpdate(s[1..], k - 1, y, p);
    }
  }

  /** Filtering by `p` and then by `q` is filtering once by their conjunction. */
  lemma {:induction false} FilterConj<T>(s: seq<T>, p: T -> bool, q: T -> bool, pq: T -> bool)
    requires forall i :: 0 <= i < |s| ==> pq(s[i]) == (p(s[i]) && q(s[i]))
    ensures Filter(Filter(s, p), q) == Filter(s, pq)
  {
    if s != [] {
      assert forall i :: 0 <= i < |s[1..]| ==> s[1..][i] == s[i + 1];
      FilterConj(s[1..], p, q, pq);
    }
  }

  /** Three predicates that classify every element exactly once split the length of `s`. */
  lemma {:induction false} FilterPartition<T>(s: seq<T>, p: T -> bool, q: T -> bool, t: T -> bool)
    requires forall i :: 0 <= i < |s| ==> (if p(s[i]) then 1 else 0) + (if q(s[i]) then 1 else 0) + (if t(s[i]) then 1 else 0) == 1
    ensures |Filter(s, p)| + |Filter(s, q)| + |Filter(s, t)| == |s|
  {
    if s != [] {
      assert forall i :: 0 <= i < |s[1..]| ==> s[1..][i] == s[i + 1];
      FilterPartition(s[1..], p, q, t);
    }
  }

  /** Filtering by a predicate every element satisfies keeps the whole sequence. */
  lemma {:induction false} FilterTodos<T>(s: seq<T>, p: T -> bool)
    requires forall i :: 0 <= i < |s| ==> p(s[i])
    ensures Filter(s, p) == s
  {
    if s != [] {
      assert forall i :: 0 <= i < |s[1..]| ==> s[1..][i] == s[i + 1];
      FilterTodos(s[1..], p);
    }
  }

  /** A weaker predicate keeps at least as many elements. */
  lemma {:induction false} FilterMonotono<T>(s: seq<T>, p: T -> bool, q: T -> bool)
    requires forall i :: 0 <= i < |s| ==> p(s[i]) ==> q(s[i])
    ensures |Filter(s, p)| <= |Filter(s, q)|
  {
    if s != [] {
      assert forall i :: 0 <= i < |s[1..]| ==> s[1..][i] == s[i + 1];
      FilterMonotono(s[1..], p, q);
    }
  }

  /** No two positions of `s` hold the same element. */
  predicate SemRepeticao<T(==)>(s: seq<T>)
  {
    forall i, j :: 0 <= i < j < |s| ==> s[i] != s[j]
  }

  /** An element at two positions occurs at least twice. */
  lemma DoisIndices<T>(s: seq<T>, i: int, j: int)
    requires 0 <= i < j < |s| && s[i] == s[j]
    ensures multiset(s)[s[i]] >= 2
  {
    assert s == s[..j] + s[j..];
    assert s[i] == s[..j][i];
    assert s[j] == s[j..][0];
  }

  /** In a sequence without repetition every element occurs at most once. */
  lemma {:induction false} SemRepeticaoUnitario<T>(s: seq<T>)
    requires SemRepeticao(s)
    ensures forall x :: multiset(s)[x] <= 1
  {
    if s != [] {
      assert s == [s[0]] + s[1..];
      assert SemRepeticao(s[1..]) by {
        forall i, j | 0 <= i < j < |s[1..]| ensures s[1..][i] != s[1..][j] {
          assert s[1..][i] == s[i + 1] && s[1..][j] == s[j + 1];
        }
      }
      SemRepeticaoUnitario(s[1..]);
      assert s[0] !in s[1..];
    }
  }

  /** What is taken, element by element, from a sequence without repetition has no repetition either. */
  lemma SubSemRepeticao<T>(s: seq<T>, t: seq<T>)
    requires multiset(s) <= multiset(t) && SemRepeticao(t)
    ensures SemRepeticao(s)
  {
    SemRepeticaoUnitario(t);
    forall i, j | 0 <= i < j < |s| ensures s[i] != s[j] {
      if s[i] == s[j] {
        DoisIndices(s, i, j);
        assert false;
      }
    }
  }

  /** A predicate and its negation split the length of `s`. */
  lemma {:induction false} FilterComplemento<T>(s: seq<T>, p: T -> bool, q: T -> bool)
    requires forall i :: 0 <= i < |s| ==> q(s[i]) == !p(s[i])
    ensures |Filter(s, p)| + |Filter(s, q)| == |s|
  {
    if s != [] {
      assert forall i :: 0 <= i < |s[1..]| ==> s[1..][i] == s[i + 1];
      FilterComplemento(s[1..], p, q);
    }
  }

  /** Every later element has a key no larger than every earlier one. */
  predicate NonIncreasing<T>(s: seq<T>, key: T -> int)
  {
    forall i, j :: 0 <= i < j < |s| ==> key(s[i]) >= key(s[j])
  }

  /** Filtering keeps the order, so it keeps a non-increasing sequence non-increasing. */
  lemma {:induction false} FilterNonIncreasing<T>(s: seq<T>, p: T -> bool, key: T -> int)
    requires NonIncreasing(s, key)
    ensures NonIncreasing(Filter(s, p), key)
  {
    if s != [] {
      var tail := s[1..];
      assert NonIncreasing(tail, key) by {
        forall i, j | 0 <= i < j < |tail| ensures key(tail[i]) >= key(tail[j]) {
          assert tail[i] == s[i + 1] && tail[j] == s[j + 1];
        }
      }
      FilterNonIncreasing(tail, p, key);
      FilterSub(tail, p);
      var rest := Filter(tail, p);
      if p(s[0]) {
        forall j | 0 <= j < |rest| ensures key(s[0]) >= key(rest[j]) {
          assert rest[j] in multiset(tail);
          var k :| 0 <= k < |tail| && tail[k] == rest[j];
          assert s[k + 1] == rest[j];
        }
        var r := [s[0]] + rest;
        forall i, j | 0 <= i < j < |r| ensures key(r[i]) >= key(r[j]) {
          assert r[j] == rest[j - 1];
          if i > 0 { assert r[i] == rest[i - 1]; }
        }
      }
    }
  }

  /** Inserts `x` before the first element whose key is not larger than its own. */
  function InsertDesc<T>(x: T, s: seq<T>, key: T -> int): (r: seq<T>)
    ensures multiset(r) == multiset(s) + multiset{x}
  {
    if s == [] || key(x) >= key(s[0]) then
      [x] + s
    else
      assert s == [s[0]] + s[1..];
      [s[0]] + InsertDesc(x, s[1..], key)
  }

  /** Inserting into a non-increasing sequence keeps it non-increasing; the new head is `x` or the old head. */
  lemma {:induction false} InsertDescOrdena<T>(x: T, s: seq<T>, key: T -> int)
    requires NonIncreasing(s, key)
    ensures |InsertDesc(x, s, key)| == |s| + 1
    ensures InsertDesc(x, s, key)[0] == x || (|s| > 0 && InsertDesc(x, s, key)[0] == s[0])
    ensures NonIncreasing(InsertDesc(x, s, key), key)
  {
    if s != [] && key(x) < key(s[0]) {
      var tail := s[1..];
      assert NonIncreasing(tail, key) by {
        forall i, j | 0 <= i < j < |tail| ensures key(tail[i]) >= key(tail[j]) {
          assert tail[i] == s[i + 1] && tail[j] == s[j + 1];
        }
      }
      InsertDescOrdena(x, tail, key);
      var rest := InsertDesc(x, tail, key);
      var r := [s[0]] + rest;
      assert key(s[0]) >= key(rest[0]);
      forall i, j | 0 <= i < j < |r| ensures key(r[i]) >= key(r[j]) {
        assert r[j] == rest[j - 1];
        if i > 0 {
          assert r[i] == rest[i - 1];
        }
      }
    }
  }

  /** Orders `s` by non-increasing key: `sorted(comparing(key).reversed())`. */
  function SortDesc<T>(s: seq<T>, key: T -> int): (r: seq<T>)
    ensures multiset(r) == multiset(s)
    ensures NonIncreasing(r, key)
  {
    if s == [] then []
    else
      assert s == [s[0]] + s[1..];
      var rest := SortDesc(s[1..], key);
      InsertDescOrdena(s[0], rest, key);
      InsertDesc(s[0], rest, key)
  }

  /** `Stream.limit(n)`: the first `n` elements, or all of them when there are fewer. */
  function Take<T>(s: seq<T>, n: nat): (r: seq<T>)
    ensures |r| <= n && r <= s
    ensures |r| < n ==> r == s
  {
    if n < |s| then s[..n] else s
  }

  /** The distinct elements of `s`, each once, in the order of their last occurrence. */
  function Distinct<T(==)>(s: seq<T>): (r: seq<T>)
    ensures |r| <= |s|
  {
    if s == [] then []
    else
      var rest := Distinct(s[1..]);
      if s[0] in rest then rest else [s[0]] + rest
  }

  /** Every element of `Distinct(s)` comes from `s`. */
  lemma {:induction false} DistinctSub<T>(s: seq<T>)
    ensures multiset(Distinct(s)) <= multiset(s)
  {
    if s != [] {
      assert s == [s[0]] + s[1..];
      DistinctSub(s[1..]);
    }
  }

  /** Every element of `s` is in `Distinct(s)`. */
  lemma {:induction false} DistinctCompleto<T>(s: seq<T>)
    ensures forall i :: 0 <= i < |s| ==> s[i] in Distinct(s)
  {
    if s != [] {
      DistinctCompleto(s[1..]);
      forall i | 0 < i < |s| ensures s[i] in Distinct(s) {
        assert s[i] == s[1..][i - 1];
      }
    }
  }

  /** No element occurs twice in `Distinct(s)`. */
  lemma {:induction false} DistinctSemRepeticao<T>(s: seq<T>)
    ensures forall i, j :: 0 <= i < j < |Distinct(s)| ==> Distinct(s)[i] != Distinct(s)[j]
  {
    if s != [] {
      DistinctSemRepeticao(s[1..]);
      var rest := Distinct(s[1..]);
      if s[0] !in rest {
        var r := [s[0]] + rest;
        forall i, j | 0 <= i < j < |r| ensures r[i] != r[j] {
          assert r[j] == rest[j - 1];
          if i > 0 {
            assert r[i] == rest[i - 1];
          }
        }
      }
    }
  }

  /** The position of the first occurrence of `x` in `s`, if there is one. */
  function IndiceDe<T(==)>(s: seq<T>, x: T): (r: Option<nat>)
    ensures r.None? <==> x !in s
    ensures r.Some? ==> r.value < |s| && s[r.value] == x && x !in s[..r.value]
  {
    if s == [] then None
    else if s[0] == x then Some(0)
    else
      assert s == [s[0]] + s[1..];
      match IndiceDe(s[1..], x)
      case None => None
      case Some(k) =>
        assert s[..k + 1] == [s[0]] + s[1..][..k];
        Some(k + 1)
  }

  /** The keys of a list of (key, count) entries. */
  function Keys<K>(t: seq<(K, nat)>): (r: seq<K>)
    ensures |r| == |t|
    ensures forall i :: 0 <= i < |t| ==> r[i] == t[i].0
  {
    seq(|t|, i requires 0 <= i < |t| => t[i].0)
  }

  /** `groupingBy(identity, counting())`: each distinct element of `s` once, with its number of occurrences. */
  function Tally<K(==)>(s: seq<K>): (t: seq<(K, nat)>)
    ensures forall i :: 0 <= i < |t| ==> t[i].1 == multiset(s)[t[i].0] && t[i].1 > 0
    ensures multiset(Keys(t)) <= multiset(s)
    ensures forall i :: 0 <= i < |s| ==> s[i] in Keys(t)
    ensures forall i, j :: 0 <= i < j < |t| ==> t[i].0 != t[j].0
  {
    var d := Distinct(s);
    DistinctSub(s);
    DistinctCompleto(s);
    DistinctSemRepeticao(s);
    var t := seq(|d|, i requires 0 <= i < |d| => (d[i], multiset(s)[d[i]]));
    assert Keys(t) == d;
    t
  }
}
