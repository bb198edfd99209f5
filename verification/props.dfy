/**
 A JavaScript props object: its own keys in `Object.keys` order, each
 with its value.  `Has` and `Get` see own keys only: a key the object
 does not own reads as `undefined`.  JavaScript's `in` and `obj[key]`
 also see names inherited from `Object.prototype` (`toString`,
 `constructor`, …), which this model does not have.
 */
module Props {
  import opened Values

  type Props = seq<(string, Value)>

  /** `key in obj`, for the object's own keys */
  predicate Has(p: Props, k: string) {
    p != [] && (p[0].0 == k || Has(p[1..], k))
  }

  /** `obj[key]`, for the object's own keys */
  function Get(p: Props, k: string): (v: Value)
    ensures !Has(p, k) ==> v == Undefined
  {
    if p == [] then Undefined
    else if p[0].0 == k then p[0].1
    else Get(p[1..], k)
  }

  /** A JavaScript object never has the same own key twice. */
  predicate DistinctKeys(p: Props) {
    p == [] || (!Has(p[1..], p[0].0) && DistinctKeys(p[1..]))
  }

  lemma {:induction false} HasEntry(p: Props, k: string)
    ensures Has(p, k) <==> exists i :: 0 <= i < |p| && p[i].0 == k
  {
    if p != [] {
      HasEntry(p[1..], k);
      if exists i :: 0 <= i < |p| && p[i].0 == k {
        var i :| 0 <= i < |p| && p[i].0 == k;
        if i > 0 {
          assert p[1..][i - 1].0 == k;
        }
      }
      if Has(p[1..], k) {
        var i :| 0 <= i < |p[1..]| && p[1..][i].0 == k;
        assert p[i + 1].0 == k;
      }
    }
  }

  /** With distinct keys, the entry at any position is the one `Get` reads. */
  lemma {:induction false} GetEntry(p: Props, i: nat)
    requires DistinctKeys(p)
    requires i < |p|
    ensures Get(p, p[i].0) == p[i].1
  {
    if i > 0 {
      assert p[1..][i - 1] == p[i];
      HasEntry(p[1..], p[i].0);
      GetEntry(p[1..], i - 1);
    }
  }

  /** The object without key `k`, other keys keeping their order. */
  function Remove(p: Props, k: string): (r: Props)
    ensures !Has(r, k)
    ensures forall x :: x != k ==> (Has(r, x) <==> Has(p, x))
    ensures forall x :: x != k ==> Get(r, x) == Get(p, x)
    ensures DistinctKeys(p) ==> DistinctKeys(r)
  {
    if p == [] then []
    else if p[0].0 == k then Remove(p[1..], k)
    else
      var r := [p[0]] + Remove(p[1..], k);
      assert r[1..] == Remove(p[1..], k);
      r
  }
}
