/**
 * Python dictionaries as the source uses them: insertion-ordered sequences
 * of (key, value) pairs with distinct keys. `Put` is `d[k] = v` (an existing
 * key keeps its position, a new key goes last), `Get` is `d.get(k, default)`,
 * and `Increment` is the counting idiom `d[k] = d.get(k, 0) + 1`.
 */
module Dict {

  /** No element occurs twice. */
  predicate Distinct<T(==)>(s: seq<T>)
  {
    forall i, j :: 0 <= i < j < |s| ==> s[i] != s[j]
  }

  predicate DistinctKeys<K(==), V>(d: seq<(K, V)>)
  {
    forall i, j :: 0 <= i < j < |d| ==> d[i].0 != d[j].0
  }

  /** `k in d`. */
  predicate HasKey<K(==), V>(d: seq<(K, V)>, k: K)
  {
    exists i :: 0 <= i < |d| && d[i].0 == k
  }

  /** The position of key `k`. */
  function IndexOf<K(==), V>(d: seq<(K, V)>, k: K): (r: nat)
    requires HasKey(d, k)
    ensures r < |d| && d[r].0 == k
    ensures forall j :: 0 <= j < r ==> d[j].0 != k
  {
    if d[0].0 == k then 0
    else
      assert HasKey(d[1..], k) by {
        var i :| 0 <= i < |d| && d[i].0 == k;
        assert d[1..][i - 1].0 == k;
      }
      1 + IndexOf(d[1..], k)
  }

  /** In a dictionary with distinct keys, the key at position `i` has position `i`. */
  lemma IndexOfAt<K, V>(d: seq<(K, V)>, i: nat)
    requires DistinctKeys(d) && i < |d|
    ensures HasKey(d, d[i].0) && IndexOf(d, d[i].0) == i
  {
  }

  /** `d.get(k, default)`. */
  function Get<K(==), V>(d: seq<(K, V)>, k: K, default: V): (v: V)
    ensures !HasKey(d, k) ==> v == default
  {
    if HasKey(d, k) then d[IndexOf(d, k)].1 else default
  }

  /** `d[k] = v`. */
  function Put<K(==, !new), V>(d: seq<(K, V)>, k: K, v: V): (r: seq<(K, V)>)
    ensures HasKey(d, k) ==> r == d[IndexOf(d, k) := (k, v)]
    ensures !HasKey(d, k) ==> r == d + [(k, v)]
    ensures DistinctKeys(d) ==> DistinctKeys(r)
    ensures HasKey(r, k)
    ensures forall x :: HasKey(r, x) <==> HasKey(d, x) || x == k
  {
    if HasKey(d, k) then
      var i := IndexOf(d, k);
      var r := d[i := (k, v)];
      assert forall x :: HasKey(r, x) ==> HasKey(d, x) by {
        forall x | HasKey(r, x) ensures HasKey(d, x) {
          var j :| 0 <= j < |r| && r[j].0 == x;
          assert d[j].0 == x;
        }
      }
      assert forall x :: HasKey(d, x) ==> HasKey(r, x) by {
        forall x | HasKey(d, x) ensures HasKey(r, x) {
          var j :| 0 <= j < |d| && d[j].0 == x;
          assert r[j].0 == x;
        }
      }
      r
    else
      var r := d + [(k, v)];
      assert r[|d|].0 == k;
      assert forall x :: HasKey(r, x) ==> HasKey(d, x) || x == k by {
        forall x | HasKey(r, x) ensures HasKey(d, x) || x == k {
          var j :| 0 <= j < |r| && r[j].0 == x;
          if j < |d| { assert d[j].0 == x; }
        }
      }
      assert forall x :: HasKey(d, x) ==> HasKey(r, x) by {
        forall x | HasKey(d, x) ensures HasKey(r, x) {
          var j :| 0 <= j < |d| && d[j].0 == x;
          assert r[j].0 == x;
        }
      }
      r
  }

  // ----- counting -----

  /** How many times `x` occurs in `ks`. */
  function Occurrences<K(==)>(ks: seq<K>, x: K): (n: nat)
    ensures n == 0 <==> x !in ks
  {
    if ks == [] then 0
    else
      assert ks == ks[..|ks| - 1] + [ks[|ks| - 1]];
      Occurrences(ks[..|ks| - 1], x) + (if ks[|ks| - 1] == x then 1 else 0)
  }

  /** `d[k] = d.get(k, 0) + 1`. */
  function Increment<K(==, !new)>(d: seq<(K, nat)>, k: K): seq<(K, nat)>
  {
    Put(d, k, Get(d, k, 0) + 1)
  }

  /** The dictionary built by counting the keys `ks` one after the other. */
  function TallyOf<K(==, !new)>(ks: seq<K>): seq<(K, nat)>
  {
    if ks == [] then [] else Increment(TallyOf(ks[..|ks| - 1]), ks[|ks| - 1])
  }

  /** The sum of the values of `d`. */
  function SumValues<K>(d: seq<(K, nat)>): nat
  {
    if d == [] then 0 else d[0].1 + SumValues(d[1..])
  }

  /** `d` holds, for exactly the keys occurring in `ks`, how often each occurs. */
  ghost predicate IsTallyOf<K(!new)>(d: seq<(K, nat)>, ks: seq<K>)
  {
    && DistinctKeys(d)
    && (forall i :: 0 <= i < |d| ==> d[i].1 == Occurrences(ks, d[i].0))
    && (forall x :: HasKey(d, x) <==> x in ks)
  }

  lemma {:induction false} SumValuesUpdate<K>(d: seq<(K, nat)>, i: nat, p: (K, nat))
    requires i < |d|
    ensures SumValues(d[i := p]) == SumValues(d) - d[i].1 + p.1
  {
    if i > 0 {
      assert d[i := p][1..] == d[1..][i - 1 := p];
      SumValuesUpdate(d[1..], i - 1, p);
    }
  }

  lemma {:induction false} SumValuesAppend<K>(d: seq<(K, nat)>, p: (K, nat))
    ensures SumValues(d + [p]) == SumValues(d) + p.1
  {
    if d != [] {
      assert (d + [p])[1..] == d[1..] + [p];
      SumValuesAppend(d[1..], p);
    }
  }

  lemma OccurrencesSnoc<K>(ks: seq<K>, y: K, x: K)
    ensures Occurrences(ks + [y], x) == Occurrences(ks, x) + (if y == x then 1 else 0)
  {
    assert (ks + [y])[..|ks|] == ks;
  }

  /** Counting a key already present raises its count by one. */
  lemma TallyStepPresent<K(!new)>(d0: seq<(K, nat)>, init: seq<K>, x: K)
    requires IsTallyOf(d0, init) && HasKey(d0, x)
    ensures IsTallyOf(Increment(d0, x), init + [x])
    ensures SumValues(Increment(d0, x)) == SumValues(d0) + 1
  {
    var ks := init + [x];
    var d := Increment(d0, x);
    var i := IndexOf(d0, x);
    assert d == d0[i := (x, d0[i].1 + 1)];
    assert forall y :: y in ks <==> y in init || y == x;
    forall j | 0 <= j < |d| ensures d[j].1 == Occurrences(ks, d[j].0) {
      OccurrencesSnoc(init, x, d[j].0);
      if j != i { assert d0[j].0 != x; }
    }
    SumValuesUpdate(d0, i, (x, d0[i].1 + 1));
  }

  /** Counting a new key appends it with count one. */
  lemma TallyStepAbsent<K(!new)>(d0: seq<(K, nat)>, init: seq<K>, x: K)
    requires IsTallyOf(d0, init) && !HasKey(d0, x)
    ensures IsTallyOf(Increment(d0, x), init + [x])
    ensures SumValues(Increment(d0, x)) == SumValues(d0) + 1
  {
    var ks := init + [x];
    var d := Increment(d0, x);
    assert d == d0 + [(x, 1)];
    assert x !in init;
    assert forall y :: y in ks <==> y in init || y == x;
    forall j | 0 <= j < |d| ensures d[j].1 == Occurrences(ks, d[j].0) {
      OccurrencesSnoc(init, x, d[j].0);
      if j < |d0| {
        assert d0[j].0 != x by { assert HasKey(d0, d0[j].0); }
      }
    }
    SumValuesAppend(d0, (x, 1));
  }

  /**
   * Counting keys one by one yields, for every key seen, its number of
   * occurrences, and the counts add up to the number of keys counted.
   */
  lemma {:induction false} TallyOfCounts<K(!new)>(ks: seq<K>)
    ensures IsTallyOf(TallyOf(ks), ks)
    ensures SumValues(TallyOf(ks)) == |ks|
  {
    if ks != [] {
      var init, x := ks[..|ks| - 1], ks[|ks| - 1];
      assert ks == init + [x];
      TallyOfCounts(init);
      if HasKey(TallyOf(init), x) {
        TallyStepPresent(TallyOf(init), init, x);
      } else {
        TallyStepAbsent(TallyOf(init), init, x);
      }
    }
  }
}
