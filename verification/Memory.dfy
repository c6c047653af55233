/**
 A C heap for digest buffers and arrays of pointers to them. It grants a number of requests, fixed
 beforehand, and then refuses; freeing or reading what is not live is a precondition violation, so a method
 that verifies never does either.
 */
module Memory {
  import opened MerkleSpec

  /** An address; 0 is NULL, and no address is ever handed out twice. */
  type Ptr = int

  function Nulls(n: nat): (s: seq<Ptr>)
    ensures |s| == n
  {
    seq(n, _ => 0)
  }

  class Heap {
    var digests: map<Ptr, Digest>
    var arrays: map<Ptr, seq<Ptr>>
    var next: Ptr
    /** How many more requests are granted before one is refused. */
    var grants: nat

    ghost predicate Valid()
      reads this
    {
      && next > 0
      && (forall p | p in digests :: 0 < p < next)
      && (forall a | a in arrays :: 0 < a < next)
    }

    constructor (grants: nat)
      ensures Valid() && digests == map[] && arrays == map[] && this.grants == grants
    {
      digests, arrays, next, this.grants := map[], map[], 1, grants;
    }

    /** malloc of a digest buffer, and the memcpy that fills it. */
    method NewDigest(d: Digest) returns (p: Ptr)
      requires Valid()
      modifies this
      ensures Valid() && arrays == old(arrays)
      ensures p == 0 <==> old(grants) == 0
      ensures p == 0 ==> digests == old(digests) && grants == 0
      ensures p != 0 ==> p !in old(digests) && digests == old(digests)[p := d] && grants == old(grants) - 1
    {
      if grants == 0 {
        return 0;
      }
      p := next;
      digests, next, grants := digests[p := d], next + 1, grants - 1;
    }

    method FreeDigest(p: Ptr)
      requires Valid() && p in digests
      modifies this
      ensures Valid() && digests == old(digests) - {p}
      ensures arrays == old(arrays) && grants == old(grants)
    {
      digests := digests - {p};
    }

    /** calloc of an array of n pointers. */
    method NewArray(n: nat) returns (a: Ptr)
      requires Valid()
      modifies this
      ensures Valid() && digests == old(digests)
      ensures a == 0 <==> old(grants) == 0
      ensures a == 0 ==> arrays == old(arrays) && grants == 0
      ensures a != 0 ==> a !in old(arrays) && arrays == old(arrays)[a := Nulls(n)] && grants == old(grants) - 1
    {
      assert arrays - {0} == arrays && [] + Nulls(n) == Nulls(n);
      a := GrowArray(0, n);
    }

    /** realloc of array a, or of NULL, to n pointers; on success the old address is dead. */
    method GrowArray(a: Ptr, n: nat) returns (b: Ptr)
      requires Valid() && (a != 0 ==> a in arrays && |arrays[a]| <= n)
      modifies this
      ensures Valid() && digests == old(digests)
      ensures b == 0 <==> old(grants) == 0
      ensures b == 0 ==> arrays == old(arrays) && grants == 0
      ensures b != 0 ==>
                && b !in old(arrays) && grants == old(grants) - 1
                && var cells := if a == 0 then [] else old(arrays)[a];
                   arrays == (old(arrays) - {a})[b := cells + Nulls(n - |cells|)]
    {
      if grants == 0 {
        return 0;
      }
      var cells := if a == 0 then [] else arrays[a];
      b := next;
      arrays, next, grants := (arrays - {a})[b := cells + Nulls(n - |cells|)], next + 1, grants - 1;
    }

    method SetCell(a: Ptr, i: nat, p: Ptr)
      requires Valid() && a in arrays && i < |arrays[a]|
      modifies this
      ensures Valid() && arrays == old(arrays)[a := old(arrays)[a][i := p]]
      ensures digests == old(digests) && grants == old(grants)
    {
      arrays := arrays[a := arrays[a][i := p]];
    }

    method FreeArray(a: Ptr)
      requires Valid() && a in arrays
      modifies this
      ensures Valid() && arrays == old(arrays) - {a}
      ensures digests == old(digests) && grants == old(grants)
    {
      arrays := arrays - {a};
    }
  }

  /** The live buffers are those of base, untouched, and the distinct buffers ptrs, holding vals. */
  ghost predicate Holds(base: map<Ptr, Digest>, live: map<Ptr, Digest>, ptrs: seq<Ptr>, vals: seq<Digest>) {
    && |ptrs| == |vals|
    && (forall i | 0 <= i < |ptrs| :: ptrs[i] in live && ptrs[i] !in base && live[ptrs[i]] == vals[i])
    && (forall i, j | 0 <= i < j < |ptrs| :: ptrs[i] != ptrs[j])
    && (forall p | p in live :: p in base || p in ptrs)
    && (forall p | p in base :: p in live && live[p] == base[p])
  }

  lemma HoldsNone(base: map<Ptr, Digest>, live: map<Ptr, Digest>)
    ensures Holds(base, live, [], []) <==> live == base
  {
    var none: seq<Ptr> := [];
    if Holds(base, live, none, []) {
      forall p | p in live ensures p in base {
        assert p !in none;
      }
      forall p | p in base ensures p in live && live[p] == base[p] {
      }
      assert live == base;
    }
  }

  lemma HoldsAdd(base: map<Ptr, Digest>, live: map<Ptr, Digest>, ptrs: seq<Ptr>, vals: seq<Digest>, p: Ptr, v: Digest)
    requires Holds(base, live, ptrs, vals) && p !in live
    ensures Holds(base, live[p := v], ptrs + [p], vals + [v])
  {
  }

  lemma HoldsDrop(base: map<Ptr, Digest>, live: map<Ptr, Digest>, ptrs: seq<Ptr>, vals: seq<Digest>)
    requires Holds(base, live, ptrs, vals) && |ptrs| > 0
    ensures ptrs[0] in live && Holds(base, live - {ptrs[0]}, ptrs[1..], vals[1..])
  {
  }

  /** How much Holds adds to the live buffers. */
  lemma {:induction false} HoldsSize(base: map<Ptr, Digest>, live: map<Ptr, Digest>, ptrs: seq<Ptr>, vals: seq<Digest>)
    requires Holds(base, live, ptrs, vals)
    ensures |live| == |base| + |ptrs|
    decreases |ptrs|
  {
    if ptrs == [] {
      HoldsNone(base, live);
      assert live == base;
    } else {
      HoldsDrop(base, live, ptrs, vals);
      var rest := live - {ptrs[0]};
      HoldsSize(base, rest, ptrs[1..], vals[1..]);
      assert live.Keys == rest.Keys + {ptrs[0]};
      assert |live.Keys| == |rest.Keys| + 1;
    }
  }
}
