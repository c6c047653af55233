/** The Merkle root of a file as a function, with SHA-256 (FIPS 180-4, section 6.2) as a parameter. */
module MerkleSpec {
  import opened ByteStrings
  import opened Arithmetic

  type Digest = d: Bytes | |d| == 32 witness seq(32, _ => 0)
  type Sha = Bytes -> Digest

  const BLOCK := 4096

  /** The successive reads of a file through a 4096-byte buffer. */
  function Blocks(file: Bytes): (bs: seq<Bytes>)
    ensures file == [] <==> bs == []
  {
    if file == [] then []
    else if |file| <= BLOCK then [file]
    else [file[..BLOCK]] + Blocks(file[BLOCK..])
  }

  /** Block k is bytes 4096 * k up to 4096 * (k + 1), or up to the end of the file. */
  lemma {:induction false} BlocksAre(file: Bytes, k: nat)
    ensures |Blocks(file)| == (|file| + 4095) / 4096
    ensures k < |Blocks(file)| ==>
              4096 * k < |file| &&
              Blocks(file)[k] == file[4096 * k..if 4096 * (k + 1) < |file| then 4096 * (k + 1) else |file|]
    decreases |file|
  {
    if |file| > BLOCK {
      BlocksAre(file[BLOCK..], if k > 0 then k - 1 else 0);
    }
  }

  function HashAll(sha: Sha, blocks: seq<Bytes>): seq<Digest> {
    seq(|blocks|, i requires 0 <= i < |blocks| => sha(blocks[i]))
  }

  function Leaves(sha: Sha, file: Bytes): seq<Digest> {
    HashAll(sha, Blocks(file))
  }

  /** The 64 bytes hashed for pair i of a level; a last digest without a partner is paired with itself. */
  function Pair(ds: seq<Digest>, i: nat): Bytes
    requires 2 * i < |ds|
  {
    var a: Bytes := ds[2 * i];
    var b: Bytes := if 2 * i + 1 < |ds| then ds[2 * i + 1] else ds[2 * i];
    a + b
  }

  function Pairs(ds: seq<Digest>): seq<Bytes> {
    seq((|ds| + 1) / 2, i requires 0 <= i < (|ds| + 1) / 2 => Pair(ds, i))
  }

  function Level(sha: Sha, ds: seq<Digest>): seq<Digest> {
    HashAll(sha, Pairs(ds))
  }

  function Reduce(sha: Sha, ds: seq<Digest>): Digest
    requires |ds| > 0
    decreases |ds|
  {
    if |ds| == 1 then ds[0] else Reduce(sha, Level(sha, ds))
  }

  function Root(sha: Sha, file: Bytes): Digest {
    if file == [] then sha([]) else Reduce(sha, Leaves(sha, file))
  }

  /** Everything a reduction hashes, in order. */
  function NodeInputs(sha: Sha, ds: seq<Digest>): seq<Bytes>
    decreases |ds|
  {
    if |ds| <= 1 then [] else Pairs(ds) + NodeInputs(sha, Level(sha, ds))
  }

  /** Everything one computation of a root hashes, in order. */
  function Inputs(sha: Sha, file: Bytes): seq<Bytes> {
    if file == [] then [[]] else Blocks(file) + NodeInputs(sha, Leaves(sha, file))
  }

  /** Two lower-case hexadecimal digits for each byte. */
  function HexDigit(n: int): (c: char)
    requires 0 <= n < 16
  {
    "0123456789abcdef"[n]
  }

  function Hex(bytes: Bytes): string {
    seq(2 * |bytes|, k requires 0 <= k < 2 * |bytes| =>
      HexDigit(if k % 2 == 0 then bytes[k / 2] / 16 else bytes[k / 2] % 16))
  }

  /** The value of a lower-case hexadecimal digit, -1 for other characters. */
  function HexValue(c: char): (v: int)
    ensures -1 <= v < 16
  {
    if '0' <= c <= '9' then (c - '0') as int
    else if 'a' <= c <= 'f' then 10 + (c - 'a') as int
    else -1
  }

  lemma HexDigitValue(n: int, c: char)
    requires 0 <= n < 16
    ensures HexDigit(n) == c <==> HexValue(c) == n
  {
    var digits := "0123456789abcdef";
    assert forall i | 0 <= i < 16 :: HexValue(digits[i]) == i;
    if HexValue(c) == n {
      assert c == if n < 10 then '0' + n as char else 'a' + (n - 10) as char;
    }
  }

  /** Characters 2 * i and 2 * i + 1 are two digits, the high one first, of the number b. */
  predicate ReadsAs(text: string, i: nat, b: Byte)
    requires 2 * i + 1 < |text|
  {
    var high, low := HexValue(text[2 * i]), HexValue(text[2 * i + 1]);
    high >= 0 && low >= 0 && high * 16 + low == b
  }

  lemma HexByte(bytes: Bytes, text: string, i: nat)
    requires i < |bytes| && |text| == 2 * |bytes|
    ensures text[2 * i] == Hex(bytes)[2 * i] && text[2 * i + 1] == Hex(bytes)[2 * i + 1] <==>
              ReadsAs(text, i, bytes[i])
  {
    HexDigitValue(bytes[i] / 16, text[2 * i]);
    HexDigitValue(bytes[i] % 16, text[2 * i + 1]);
  }

  /** A text is the printed form of some bytes exactly when it reads back as them. */
  lemma HexReads(bytes: Bytes, text: string)
    requires |text| == 2 * |bytes|
    ensures text == Hex(bytes) <==> forall i | 0 <= i < |bytes| :: ReadsAs(text, i, bytes[i])
  {
    forall i | 0 <= i < |bytes|
      ensures text[2 * i] == Hex(bytes)[2 * i] && text[2 * i + 1] == Hex(bytes)[2 * i + 1] <==>
                ReadsAs(text, i, bytes[i])
    {
      HexByte(bytes, text, i);
    }
    if forall i | 0 <= i < |bytes| :: ReadsAs(text, i, bytes[i]) {
      forall k | 0 <= k < |text|
        ensures text[k] == Hex(bytes)[k]
      {
        assert ReadsAs(text, k / 2, bytes[k / 2]);
        assert k == 2 * (k / 2) || k == 2 * (k / 2) + 1;
      }
    }
  }

  lemma HexInjective(a: Bytes, b: Bytes)
    requires Hex(a) == Hex(b)
    ensures a == b
  {
    assert |Hex(a)| == 2 * |a|;
    forall i | 0 <= i < |a| ensures a[i] == b[i] {
      assert Hex(a)[2 * i] == Hex(b)[2 * i] && Hex(a)[2 * i + 1] == Hex(b)[2 * i + 1];
      HexDigitInjective(a[i] / 16, b[i] / 16);
      HexDigitInjective(a[i] % 16, b[i] % 16);
    }
  }

  lemma HexDigitInjective(m: int, n: int)
    requires 0 <= m < 16 && 0 <= n < 16 && HexDigit(m) == HexDigit(n)
    ensures m == n
  {
    var digits := "0123456789abcdef";
    assert forall i, j | 0 <= i < j < 16 :: digits[i] != digits[j];
  }

  // ---------------------------------------------------------------- shape and cost of the reduction

  /** How many rounds halve n to 1. */
  function Depth(n: nat): nat {
    if n <= 1 then 0 else 1 + Depth((n + 1) / 2)
  }

  /** Depth(n) is the least d with n <= 2^d, the ceiling of log2 n. */
  lemma {:induction false} DepthIsCeilLog2(n: nat)
    requires n >= 1
    ensures n <= Pow2(Depth(n))
    ensures n > 1 ==> Pow2(Depth(n) - 1) < n
  {
    if n > 1 {
      DepthIsCeilLog2((n + 1) / 2);
    }
  }

  /** n leaves cost at least n - 1 and at most n - 1 + ceil(log2 n) internal hashes. */
  lemma {:induction false} NodeHashes(sha: Sha, ds: seq<Digest>)
    requires |ds| >= 1
    ensures |ds| - 1 <= |NodeInputs(sha, ds)| <= |ds| - 1 + Depth(|ds|)
    decreases |ds|
  {
    if |ds| > 1 {
      NodeHashes(sha, Level(sha, ds));
    }
  }

  /** Allocation requests of a reduction of n leaves: each round asks for an array and for every digest in it. */
  function NodeRequests(n: nat): nat {
    if n <= 1 then 0 else 1 + (n + 1) / 2 + NodeRequests((n + 1) / 2)
  }

  /** That is one for every hash and one for every round. */
  lemma {:induction false} NodeRequestsAre(sha: Sha, ds: seq<Digest>)
    requires |ds| >= 1
    ensures NodeRequests(|ds|) == |NodeInputs(sha, ds)| + Depth(|ds|)
    decreases |ds|
  {
    if |ds| > 1 {
      NodeRequestsAre(sha, Level(sha, ds));
    }
  }

  // ---------------------------------------------------------------- the same root as a perfect tree

  /** Which leaf stands at position k of the padded list of 2^Depth(n) leaves. */
  function PadIndex(n: nat, k: nat): (r: nat)
    requires n >= 1
    ensures r < n
    ensures k < n ==> r == k
  {
    if n == 1 then 0
    else
      var q := PadIndex((n + 1) / 2, k / 2);
      if 2 * q + k % 2 < n then 2 * q + k % 2 else 2 * q
  }

  function Padded<T>(ds: seq<T>): (p: seq<T>)
    requires |ds| >= 1
    ensures |p| == Pow2(Depth(|ds|))
  {
    seq(Pow2(Depth(|ds|)), k requires 0 <= k => ds[PadIndex(|ds|, k)])
  }

  /** The root of the perfect binary tree over 2^d leaves, from the top. */
  function Tree(sha: Sha, ls: seq<Digest>, d: nat): Digest
    requires |ls| == Pow2(d)
  {
    if d == 0 then ls[0]
    else
      var half := Pow2(d - 1);
      sha(Tree(sha, ls[..half], d - 1) + Tree(sha, ls[half..], d - 1))
  }

  lemma PairsHalves(ls: seq<Digest>, half: nat)
    requires |ls| == 2 * half && half % 2 == 0
    ensures Pairs(ls)[..half / 2] == Pairs(ls[..half])
    ensures Pairs(ls)[half / 2..] == Pairs(ls[half..])
  {
    forall i | 0 <= i < half / 2
      ensures Pairs(ls)[i] == Pairs(ls[..half])[i]
      ensures Pairs(ls)[half / 2 + i] == Pairs(ls[half..])[i]
    {
    }
  }

  lemma {:induction false} TreeBottomUp(sha: Sha, ls: seq<Digest>, d: nat)
    requires d >= 1 && |ls| == Pow2(d)
    ensures Tree(sha, ls, d) == Tree(sha, Level(sha, ls), d - 1)
  {
    if d > 1 {
      var half := Pow2(d - 1);
      PairsHalves(ls, half);
      assert Level(sha, ls)[..half / 2] == Level(sha, ls[..half]);
      assert Level(sha, ls)[half / 2..] == Level(sha, ls[half..]);
      TreeBottomUp(sha, ls[..half], d - 1);
      TreeBottomUp(sha, ls[half..], d - 1);
    }
  }

  lemma PadIndexPair(n: nat, k: nat)
    requires n > 1
    ensures var q := PadIndex((n + 1) / 2, k);
            && PadIndex(n, 2 * k) == 2 * q
            && PadIndex(n, 2 * k + 1) == (if 2 * q + 1 < n then 2 * q + 1 else 2 * q)
  {
    assert 2 * k / 2 == k && (2 * k + 1) / 2 == k;
  }

  lemma PaddedPair(ds: seq<Digest>, k: nat)
    requires |ds| > 1 && 2 * k < Pow2(Depth(|ds|))
    ensures Pair(Padded(ds), k) == Pair(ds, PadIndex((|ds| + 1) / 2, k))
  {
    var p, n := Padded(ds), |ds|;
    assert |p| == 2 * Pow2(Depth(n) - 1) && 2 * k + 1 < |p|;
    assert p[2 * k] == ds[PadIndex(n, 2 * k)] && p[2 * k + 1] == ds[PadIndex(n, 2 * k + 1)];
    PadIndexPair(n, k);
  }

  lemma PaddedLevel(sha: Sha, ds: seq<Digest>)
    requires |ds| > 1
    ensures Level(sha, Padded(ds)) == Padded(Level(sha, ds))
  {
    var p, next := Padded(ds), Level(sha, ds);
    var size := Pow2(Depth(|ds|) - 1);
    assert |Level(sha, p)| == |Padded(next)| == size;
    forall k | 0 <= k < size
      ensures Level(sha, p)[k] == Padded(next)[k]
    {
      PaddedPair(ds, k);
      assert Level(sha, p)[k] == sha(Pair(p, k));
      assert Padded(next)[k] == next[PadIndex((|ds| + 1) / 2, k)];
    }
  }

  /** The duplicate-last reduction is the perfect tree over the padded leaves. */
  lemma {:induction false} ReduceIsPerfectTree(sha: Sha, ds: seq<Digest>)
    requires |ds| >= 1
    ensures Reduce(sha, ds) == Tree(sha, Padded(ds), Depth(|ds|))
    decreases |ds|
  {
    if |ds| > 1 {
      ReduceIsPerfectTree(sha, Level(sha, ds));
      PaddedLevel(sha, ds);
      TreeBottomUp(sha, Padded(ds), Depth(|ds|));
    }
  }
}
