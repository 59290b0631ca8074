/** Python's `dict` as the module uses it: keys kept in insertion order,
    assignment to a present key replacing its value in place, assignment to
    a new key appending it. Every dict the module builds is keyed by text. */
module OrderedDicts {
  import opened Results

  datatype Dict<V> = Dict(keys: seq<string>, values: map<string, V>)

  /** Every key once, and exactly the keys that carry a value. */
  ghost predicate Valid<V>(d: Dict<V>) {
    (forall i, j :: 0 <= i < j < |d.keys| ==> d.keys[i] != d.keys[j])
    && (forall k :: k in d.values <==> k in d.keys)
  }

  function Empty<V>(): (d: Dict<V>)
    ensures Valid(d) && d.keys == []
  {
    Dict([], map[])
  }

  /** `d[k]`, with a missing key (Python's `KeyError`) as `None`. */
  function Get<V>(d: Dict<V>, k: string): (r: Option<V>)
    ensures r.Some? <==> k in d.values
  {
    if k in d.values then Some(d.values[k]) else None
  }

  /** `d[k] = v`. */
  function Put<V>(d: Dict<V>, k: string, v: V): (r: Dict<V>)
    requires Valid(d)
    ensures Valid(r)
    ensures Get(r, k) == Some(v)
    ensures forall k' :: k' != k ==> Get(r, k') == Get(d, k')
    ensures k in d.keys ==> r.keys == d.keys
    ensures k !in d.keys ==> r.keys == d.keys + [k]
  {
    Dict(if k in d.values then d.keys else d.keys + [k], d.values[k := v])
  }

  /** A dict built by assigning the pairs in order. */
  function FromPairs<V>(ps: seq<(string, V)>): (d: Dict<V>)
    ensures Valid(d)
  {
    if ps == [] then Empty() else Put(FromPairs(ps[..|ps| - 1]), ps[|ps| - 1].0, ps[|ps| - 1].1)
  }

  /** The value of the last pair with key `k`: an independent statement of
      "a later assignment overwrites an earlier one". */
  function LastValue<V>(ps: seq<(string, V)>, k: string): (r: Option<V>)
    ensures r.None? <==> forall i :: 0 <= i < |ps| ==> ps[i].0 != k
    ensures r.Some? ==> exists i :: 0 <= i < |ps| && ps[i] == (k, r.value)
  {
    if ps == [] then None
    else if ps[|ps| - 1].0 == k then
      assert ps[|ps| - 1] == (k, ps[|ps| - 1].1);
      Some(ps[|ps| - 1].1)
    else
      var r := LastValue(ps[..|ps| - 1], k);
      assert forall i :: 0 <= i < |ps| - 1 ==> ps[..|ps| - 1][i] == ps[i];
      r
  }

  /** The value found is the one of the last pair with key `k`: no later
      pair has that key. */
  lemma {:induction false} LastValueIsLast<V>(ps: seq<(string, V)>, k: string)
    requires LastValue(ps, k).Some?
    ensures exists i ::
      && 0 <= i < |ps|
      && ps[i] == (k, LastValue(ps, k).value)
      && (forall j :: i < j < |ps| ==> ps[j].0 != k)
  {
    var n := |ps| - 1;
    if ps[n].0 == k {
      assert ps[n] == (k, LastValue(ps, k).value);
    } else {
      var front := ps[..n];
      assert LastValue(ps, k) == LastValue(front, k);
      var v := LastValue(front, k).value;
      LastValueIsLast(front, k);
      var i :| 0 <= i < n && front[i] == (k, v) && (forall j :: i < j < n ==> front[j].0 != k);
      assert forall j :: 0 <= j < n ==> ps[j] == front[j];
      assert 0 <= i < |ps| && ps[i] == (k, v) && (forall j :: i < j < |ps| ==> ps[j].0 != k);
    }
  }

  /** The keys of `ps` in order of first appearance. */
  function FirstKeys<V>(ps: seq<(string, V)>): (r: seq<string>)
  {
    if ps == [] then []
    else
      var r := FirstKeys(ps[..|ps| - 1]);
      if ps[|ps| - 1].0 in r then r else r + [ps[|ps| - 1].0]
  }

  /** Some pair of `ps` has key `k`. */
  predicate Occurs<V>(ps: seq<(string, V)>, k: string) {
    exists p :: 0 <= p < |ps| && ps[p].0 == k
  }

  /** Key `a` is assigned at some position where `b` has not been assigned
      yet: `a` first appears before `b` does. */
  predicate AppearsBefore<V>(ps: seq<(string, V)>, a: string, b: string) {
    exists p ::
      && 0 <= p < |ps|
      && ps[p].0 == a
      && (forall q :: 0 <= q <= p ==> ps[q].0 != b)
  }

  /** `r` lists the keys of `ps`, each once, in order of first appearance. */
  ghost predicate FirstAppearanceOrder<V>(ps: seq<(string, V)>, r: seq<string>) {
    && (forall i, j :: 0 <= i < j < |r| ==> r[i] != r[j])
    && (forall k :: k in r <==> Occurs(ps, k))
    && (forall i, j :: 0 <= i < j < |r| ==> AppearsBefore(ps, r[i], r[j]))
  }

  /** What holds of a prefix of `ps` about first appearances holds of `ps`. */
  lemma AppearsBeforePrefix<V>(ps: seq<(string, V)>, n: nat, a: string, b: string)
    requires n <= |ps| && AppearsBefore(ps[..n], a, b)
    ensures AppearsBefore(ps, a, b)
  {
    var p :| 0 <= p < n && ps[..n][p].0 == a && (forall q :: 0 <= q <= p ==> ps[..n][q].0 != b);
    assert forall q :: 0 <= q <= p ==> ps[q] == ps[..n][q];
  }

  /** A key of the prefix appears before a key the prefix does not hold. */
  lemma AppearsBeforeNew<V>(ps: seq<(string, V)>, n: nat, a: string, b: string)
    requires n <= |ps| && Occurs(ps[..n], a) && !Occurs(ps[..n], b)
    ensures AppearsBefore(ps, a, b)
  {
    var p :| 0 <= p < n && ps[..n][p].0 == a;
    assert ps[p].0 == a;
    forall q | 0 <= q <= p
      ensures ps[q].0 != b
    {
      assert ps[q] == ps[..n][q];
    }
  }

  /** Adding one last pair: a key occurs in `ps` exactly when it occurs in
      the front or is the last pair's key. */
  lemma OccursSnoc<V>(ps: seq<(string, V)>, k: string)
    requires ps != []
    ensures Occurs(ps, k) <==> Occurs(ps[..|ps| - 1], k) || ps[|ps| - 1].0 == k
  {
    var n := |ps| - 1;
    if Occurs(ps, k) && ps[n].0 != k {
      var p :| 0 <= p < |ps| && ps[p].0 == k;
      assert ps[..n][p] == ps[p];
    }
    if Occurs(ps[..n], k) {
      var p :| 0 <= p < n && ps[..n][p].0 == k;
      assert ps[p] == ps[..n][p];
    }
  }

  /** `FirstKeys` lists each key of `ps` once, in order of first appearance. */
  lemma {:induction false} FirstKeysOrder<V>(ps: seq<(string, V)>)
    ensures FirstAppearanceOrder(ps, FirstKeys(ps))
  {
    if ps != [] {
      var n := |ps| - 1;
      var front := ps[..n];
      var x := ps[n].0;
      var r0 := FirstKeys(front);
      FirstKeysOrder(front);
      forall k
        ensures Occurs(ps, k) <==> Occurs(front, k) || x == k
      {
        OccursSnoc(ps, k);
      }
      forall i, j | 0 <= i < j < |r0|
        ensures AppearsBefore(ps, r0[i], r0[j])
      {
        AppearsBeforePrefix(ps, n, r0[i], r0[j]);
      }
      if x !in r0 {
        var r := r0 + [x];
        assert !Occurs(front, x);
        forall i, j | 0 <= i < j < |r|
          ensures AppearsBefore(ps, r[i], r[j])
        {
          if j == |r0| {
            assert r[i] == r0[i] && r[j] == x;
            AppearsBeforeNew(ps, n, r0[i], x);
          } else {
            assert r[i] == r0[i] && r[j] == r0[j];
          }
        }
      }
    }
  }

  /** A first appearance in `ps` at a key the front already holds is also
      one in the front. */
  lemma AppearsBeforeDrop<V>(ps: seq<(string, V)>, a: string, b: string)
    requires ps != [] && AppearsBefore(ps, a, b) && Occurs(ps[..|ps| - 1], a)
    ensures AppearsBefore(ps[..|ps| - 1], a, b)
  {
    var n := |ps| - 1;
    var front := ps[..n];
    var p :| 0 <= p < |ps| && ps[p].0 == a && (forall q :: 0 <= q <= p ==> ps[q].0 != b);
    var p0 :| 0 <= p0 < n && front[p0].0 == a;
    var w := if p < n then p else p0;
    assert front[w].0 == a;
    forall q | 0 <= q <= w
      ensures front[q].0 != b
    {
      assert front[q] == ps[q];
    }
  }

  /** A key that only the last pair has comes last. */
  lemma NewKeyLast<V>(ps: seq<(string, V)>, r: seq<string>)
    requires ps != [] && FirstAppearanceOrder(ps, r) && !Occurs(ps[..|ps| - 1], ps[|ps| - 1].0)
    ensures r != [] && r[|r| - 1] == ps[|ps| - 1].0
  {
    var x := ps[|ps| - 1].0;
    assert Occurs(ps, x);
    var j :| 0 <= j < |r| && r[j] == x;
    KeyOccurs(ps, r, |r| - 1);
    NewKeyNotBefore(ps, r[|r| - 1]);
    assert forall i :: 0 <= i < |r| - 1 ==> r[i] != x;
  }

  /** A key that only the last pair has appears before no key of `ps`. */
  lemma NewKeyNotBefore<V>(ps: seq<(string, V)>, y: string)
    requires ps != [] && !Occurs(ps[..|ps| - 1], ps[|ps| - 1].0) && Occurs(ps, y)
    ensures !AppearsBefore(ps, ps[|ps| - 1].0, y)
  {
    var n := |ps| - 1;
    forall p | 0 <= p < n
      ensures ps[p].0 != ps[n].0
    {
      assert ps[..n][p] == ps[p];
    }
  }

  /** Every listed key occurs. */
  lemma KeyOccurs<V>(ps: seq<(string, V)>, r: seq<string>, i: nat)
    requires FirstAppearanceOrder(ps, r) && i < |r|
    ensures Occurs(ps, r[i])
  {
    assert r[i] in r;
  }

  /** With no pairs there are no keys. */
  lemma NoPairsNoKeys<V>(ps: seq<(string, V)>, r: seq<string>)
    requires ps == [] && FirstAppearanceOrder(ps, r)
    ensures r == []
  {
    if r != [] {
      KeyOccurs(ps, r, 0);
      assert false;
    }
  }

  /** The order of first appearance leaves one way to list the keys. */
  lemma {:induction false} FirstAppearanceOrderUnique<V>(ps: seq<(string, V)>, r1: seq<string>, r2: seq<string>)
    requires FirstAppearanceOrder(ps, r1) && FirstAppearanceOrder(ps, r2)
    ensures r1 == r2
  {
    if ps == [] {
      NoPairsNoKeys(ps, r1);
      NoPairsNoKeys(ps, r2);
    } else {
      var n := |ps| - 1;
      var front := ps[..n];
      var x := ps[n].0;
      forall k
        ensures Occurs(ps, k) <==> Occurs(front, k) || x == k
      {
        OccursSnoc(ps, k);
      }
      if Occurs(front, x) {
        FrontOrder(ps, r1);
        FrontOrder(ps, r2);
        FirstAppearanceOrderUnique(front, r1, r2);
      } else {
        NewKeyLast(ps, r1);
        NewKeyLast(ps, r2);
        FrontOrderNew(ps, r1);
        FrontOrderNew(ps, r2);
        FirstAppearanceOrderUnique(front, r1[..|r1| - 1], r2[..|r2| - 1]);
        assert r1 == r1[..|r1| - 1] + [x];
        assert r2 == r2[..|r2| - 1] + [x];
      }
    }
  }

  /** When the last pair's key is an old one, the keys are in the front's
      order too. */
  lemma FrontOrder<V>(ps: seq<(string, V)>, r: seq<string>)
    requires ps != [] && FirstAppearanceOrder(ps, r) && Occurs(ps[..|ps| - 1], ps[|ps| - 1].0)
    ensures FirstAppearanceOrder(ps[..|ps| - 1], r)
  {
    var front := ps[..|ps| - 1];
    forall k
      ensures k in r <==> Occurs(front, k)
    {
      OccursSnoc(ps, k);
    }
    forall i, j | 0 <= i < j < |r|
      ensures AppearsBefore(front, r[i], r[j])
    {
      AppearsBeforeDrop(ps, r[i], r[j]);
    }
  }

  /** When the last pair's key is new, the keys before it are in the
      front's order. */
  lemma FrontOrderNew<V>(ps: seq<(string, V)>, r: seq<string>)
    requires ps != [] && FirstAppearanceOrder(ps, r) && r != [] && r[|r| - 1] == ps[|ps| - 1].0
    requires !Occurs(ps[..|ps| - 1], ps[|ps| - 1].0)
    ensures FirstAppearanceOrder(ps[..|ps| - 1], r[..|r| - 1])
  {
    var front := ps[..|ps| - 1];
    var x := ps[|ps| - 1].0;
    var r0 := r[..|r| - 1];
    forall k
      ensures k in r0 <==> Occurs(front, k)
    {
      OccursSnoc(ps, k);
      if k in r0 {
        var i :| 0 <= i < |r0| && r0[i] == k;
        assert r[i] == k && r[|r| - 1] == x;
      }
      if k in r && k != x {
        var i :| 0 <= i < |r| && r[i] == k;
        assert r0[i] == k;
      }
    }
    forall i, j | 0 <= i < j < |r0|
      ensures AppearsBefore(front, r0[i], r0[j])
    {
      assert r0[i] == r[i] && r0[j] == r[j];
      assert r0[i] in r0;
      AppearsBeforeDrop(ps, r0[i], r0[j]);
    }
  }

  /** A list of keys is `FirstKeys(ps)` exactly when it lists each key of
      `ps` once, in order of first appearance. */
  lemma FirstKeysIff<V>(ps: seq<(string, V)>, r: seq<string>)
    ensures FirstAppearanceOrder(ps, r) <==> r == FirstKeys(ps)
  {
    FirstKeysOrder(ps);
    if FirstAppearanceOrder(ps, r) {
      FirstAppearanceOrderUnique(ps, r, FirstKeys(ps));
    }
  }

  /** Looking a key up in `FromPairs(ps)` finds the value of its last pair. */
  lemma {:induction false} FromPairsLastWins<V>(ps: seq<(string, V)>, k: string)
    ensures Get(FromPairs(ps), k) == LastValue(ps, k)
  {
    if ps != [] {
      FromPairsLastWins(ps[..|ps| - 1], k);
    }
  }

  /** The keys of `FromPairs(ps)` are the keys of `ps`, each once, in order
      of first appearance. */
  lemma {:induction false} FromPairsKeys<V>(ps: seq<(string, V)>)
    ensures FromPairs(ps).keys == FirstKeys(ps)
    ensures FirstAppearanceOrder(ps, FromPairs(ps).keys)
  {
    if ps != [] {
      FromPairsKeys(ps[..|ps| - 1]);
    }
    FirstKeysOrder(ps);
  }
}
