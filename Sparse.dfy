/**
 * The sparse polynomial of SparsePolynom.h: a map from degree to
 * coefficient, filled once by its constructors and then only queried.
 * Missing degrees read as 0, and the degree is found by scanning the keys
 * from the highest down for the first coefficient above the threshold.
 */
module Sparse {

  /**
   * Whether a coefficient counts towards the degree: its magnitude exceeds
   * the machine epsilon of `double`.  For integer coefficients that epsilon
   * is below 1, so this is exactly "nonzero".
   */
  predicate Significant(v: int) { v != 0 }

  /** `std::map::insert`: a key that is already present keeps its value. */
  function Insert(m: map<nat, int>, k: nat, v: int): (r: map<nat, int>)
    ensures r.Keys == m.Keys + {k}
    ensures k in m ==> r[k] == m[k]
    ensures k !in m ==> r[k] == v
    ensures forall j :: j in m ==> r[j] == m[j]
  {
    if k in m then m else m[k := v]
  }

  /** The map built by inserting the pairs one after another, in order. */
  function FromPairs(pairs: seq<(nat, int)>): map<nat, int>
  {
    if |pairs| == 0 then map[]
    else Insert(FromPairs(pairs[..|pairs| - 1]), pairs[|pairs| - 1].0, pairs[|pairs| - 1].1)
  }

  /** The keys are exactly the degrees that occur in the list. */
  lemma {:induction false} FromPairsKeys(pairs: seq<(nat, int)>)
    ensures forall d :: d in FromPairs(pairs) <==> exists i :: 0 <= i < |pairs| && pairs[i].0 == d
  {
    if |pairs| > 0 {
      var n := |pairs|;
      var init := pairs[..n - 1];
      FromPairsKeys(init);
      forall d
        ensures d in FromPairs(pairs) <==> exists i :: 0 <= i < n && pairs[i].0 == d
      {
        if d in FromPairs(pairs) && d != pairs[n - 1].0 {
          assert d in FromPairs(init);
          var i :| 0 <= i < n - 1 && init[i].0 == d;
          assert pairs[i].0 == d;
        }
        if exists i :: 0 <= i < n && pairs[i].0 == d {
          var i :| 0 <= i < n && pairs[i].0 == d;
          if i < n - 1 {
            assert init[i].0 == d;
          }
        }
      }
    }
  }

  /** For a degree listed more than once, the first pair wins. */
  lemma {:induction false} FromPairsFirstWins(pairs: seq<(nat, int)>)
    ensures forall i :: 0 <= i < |pairs| && (forall j :: 0 <= j < i ==> pairs[j].0 != pairs[i].0) ==>
              pairs[i].0 in FromPairs(pairs) && FromPairs(pairs)[pairs[i].0] == pairs[i].1
  {
    FromPairsKeys(pairs);
    if |pairs| > 0 {
      var n := |pairs|;
      var init := pairs[..n - 1];
      FromPairsKeys(init);
      FromPairsFirstWins(init);
      forall i | 0 <= i < n && (forall j :: 0 <= j < i ==> pairs[j].0 != pairs[i].0)
        ensures pairs[i].0 in FromPairs(pairs) && FromPairs(pairs)[pairs[i].0] == pairs[i].1
      {
        if i < n - 1 {
          assert init[i] == pairs[i];
          assert forall j :: 0 <= j < i ==> init[j] == pairs[j];
        }
      }
    }
  }

  /** The largest key of a nonempty set of degrees. */
  function MaxKey(s: set<nat>): (m: nat)
    requires s != {}
    ensures m in s && forall j :: j in s ==> j <= m
  {
    MaxExists(s);
    var m :| m in s && forall j :: j in s ==> j <= m;
    m
  }

  lemma {:induction false} MaxExists(s: set<nat>)
    requires s != {}
    ensures exists m :: m in s && forall j :: j in s ==> j <= m
  {
    var k :| k in s;
    var rest := s - {k};
    var top := k;
    if rest != {} {
      MaxExists(rest);
      var m :| m in rest && forall j :: j in rest ==> j <= m;
      top := if m < k then k else m;
    }
    forall j | j in s
      ensures j <= top
    {
      if j != k {
        assert j in rest;
      }
    }
    assert top in s;
  }

  class SparsePolynom {
    /** Degree-coefficient pairs. */
    const data: map<nat, int>

    /** The default constructor: no terms. */
    constructor Empty()
      ensures data == map[]
    {
      data := map[];
    }

    /** The copy constructor. */
    constructor Copy(other: SparsePolynom)
      ensures data == other.data
    {
      data := other.data;
    }

    /**
     * The initializer-list constructor: inserts the pairs in order, so a
     * degree listed twice keeps its first coefficient.
     */
    constructor FromList(pairs: seq<(nat, int)>)
      ensures data == FromPairs(pairs)
    {
      var m: map<nat, int> := map[];
      for i := 0 to |pairs|
        invariant m == FromPairs(pairs[..i])
      {
        assert pairs[..i + 1][..i] == pairs[..i];
        if pairs[i].0 !in m {
          m := m[pairs[i].0 := pairs[i].1];
        }
      }
      assert pairs[..|pairs|] == pairs;
      data := m;
    }

    /** `operator[]`: the stored coefficient of x^i, or 0 for an absent degree. */
    function Get(i: nat): (c: int)
      ensures i in data ==> c == data[i]
      ensures i !in data ==> c == 0
    {
      if i in data then data[i] else 0
    }

    /** `contains_degree`: whether the degree is a key. */
    predicate ContainsDegree(d: nat)
      ensures ContainsDegree(d) <==> d in data.Keys
    {
      d in data
    }

    /** Whether `get_degree` is defined: some coefficient is significant. */
    predicate HasSignificant()
    {
      exists k :: k in data && Significant(data[k])
    }

    /**
     * `get_degree`: walks the keys from the highest down and stops at the
     * first significant coefficient, so the result is the largest key with a
     * significant coefficient.  When there is none the walk runs off the end
     * of the map, which is undefined; that case is excluded.
     */
    method GetDegree() returns (d: nat)
      requires HasSignificant()
      ensures d in data && Significant(data[d])
      ensures forall k :: k in data && k > d ==> !Significant(data[k])
    {
      var keys := data.Keys;
      d := MaxKey(keys);
      while !Significant(data[d])
        invariant d in keys && keys <= data.Keys
        invariant forall j :: j in keys ==> j <= d
        invariant forall k :: k in data && k !in keys ==> k > d && !Significant(data[k])
        invariant exists k :: k in keys && Significant(data[k])
        decreases |keys|
      {
        ghost var w :| w in keys && Significant(data[w]);
        keys := keys - {d};
        assert w in keys;
        d := MaxKey(keys);
      }
    }
  }

  /**
   * The polynomial 2 - x + 5x^2 built from the list {0:2}, {1:-1}, {2:5}
   * has degree 2, and degree 3 reads as 0.
   */
  method ListExample() returns (degree: nat, atThree: int)
    ensures degree == 2 && atThree == 0
  {
    var pairs: seq<(nat, int)> := [(0, 2), (1, -1), (2, 5)];
    var p := new SparsePolynom.FromList(pairs);
    assert pairs[..2][..1][..0] == [];
    assert FromPairs(pairs[..2][..1]) == map[0 := 2];
    assert FromPairs(pairs[..2]) == map[0 := 2, 1 := -1];
    assert p.data == map[0 := 2, 1 := -1, 2 := 5];
    degree := p.GetDegree();
    atThree := p.Get(3);
  }
}
