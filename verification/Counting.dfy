/** How many elements of a sequence satisfy a condition. */
module Counting {
  function Count<T>(s: seq<T>, f: T -> bool): nat {
    if s == [] then 0 else (if f(s[0]) then 1 else 0) + Count(s[1..], f)
  }

  lemma {:induction false} CountUpdate<T>(s: seq<T>, i: nat, x: T, f: T -> bool)
    requires i < |s|
    ensures Count(s[i := x], f) + (if f(s[i]) then 1 else 0) == Count(s, f) + (if f(x) then 1 else 0)
  {
    if i == 0 {
      assert s[0 := x][1..] == s[1..];
    } else {
      assert s[i := x][1..] == s[1..][i - 1 := x];
      CountUpdate(s[1..], i - 1, x, f);
    }
  }

  lemma {:induction false} CountBounds<T>(s: seq<T>, f: T -> bool)
    ensures Count(s, f) <= |s|
    ensures (forall i | 0 <= i < |s| :: !f(s[i])) ==> Count(s, f) == 0
    ensures (forall i | 0 <= i < |s| :: f(s[i])) ==> Count(s, f) == |s|
  {
    if s != [] {
      CountBounds(s[1..], f);
    }
  }

  /** Conditions that exclude each other share the elements out. */
  lemma {:induction false} CountDisjoint<T>(s: seq<T>, f: T -> bool, g: T -> bool)
    requires forall x :: !(f(x) && g(x))
    ensures Count(s, f) + Count(s, g) <= |s|
  {
    if s != [] {
      CountDisjoint(s[1..], f, g);
    }
  }

  /** One element outside the condition keeps the count below the length. */
  lemma CountMisses<T>(s: seq<T>, i: nat, f: T -> bool)
    requires i < |s| && !f(s[i])
    ensures Count(s, f) <= |s| - 1
  {
    CountSplit(s, i, f);
    CountBounds(s[..i], f);
    CountBounds(s[i + 1..], f);
  }

  lemma {:induction false} CountSplit<T>(s: seq<T>, i: nat, f: T -> bool)
    requires i < |s|
    ensures Count(s, f) == Count(s[..i], f) + (if f(s[i]) then 1 else 0) + Count(s[i + 1..], f)
  {
    if i == 0 {
      assert s[..0] == [];
    } else {
      CountSplit(s[1..], i - 1, f);
      assert s[1..][..i - 1] == s[..i][1..];
      assert s[1..][i..] == s[i + 1..];
    }
  }

  lemma {:induction false} CountMonotone<T>(s: seq<T>, f: T -> bool, g: T -> bool)
    requires forall i | 0 <= i < |s| :: f(s[i]) ==> g(s[i])
    ensures Count(s, f) <= Count(s, g)
  {
    if s != [] {
      assert f(s[0]) ==> g(s[0]);
      forall i | 0 <= i < |s[1..]| ensures f(s[1..][i]) ==> g(s[1..][i]) {
        assert s[1..][i] == s[i + 1];
      }
      CountMonotone(s[1..], f, g);
    }
  }
}
