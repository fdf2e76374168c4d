/** The universal hash of the separate-chaining table: 53 * k + 97 reduced
    modulo the Mersenne prime 2^19 - 1 by a shift-and-add loop, then modulo
    the table size. */
module Hashing {
  import Primes

  const PrimeDigits: nat := 19
  /** 2^19, the weight of the bits `res >> 19` keeps. */
  const Radix: nat := 524288
  /** The Mersenne prime (1 << 19) - 1. */
  const Mersenne: nat := 524287
  const ParamA: nat := 53
  const ParamB: nat := 97
  /** The base the string hash inflates each character with. */
  const Base: nat := 37

  /** The two key types the table is instantiated with: `long long` (taken
      nonnegative here) and `std::string`. */
  datatype Key = IntKey(n: nat) | TextKey(s: string)

  /** The body of the reduction loop, `(res & M) + (res >> 19)`: the low 19
      bits plus the bits above them. */
  function Fold(res: nat): nat
  {
    res % Radix + res / Radix
  }

  /** Folding keeps the residue modulo M, strictly shrinks every value
      above M, and keeps a positive value positive. */
  lemma FoldSpec(res: nat)
    ensures Fold(res) % Mersenne == res % Mersenne
    ensures res > Mersenne ==> Fold(res) < res
    ensures res > 0 ==> Fold(res) > 0
  {
    var q, s := res / Radix, res % Radix;
    assert res == Radix * q + s;
    assert res == Mersenne * q + Fold(res);
    var f := Fold(res);
    Primes.DivModUnique(res, Mersenne, q + f / Mersenne, f % Mersenne);
  }

  // ---------------------------------------------------------------------------
  // fastMersenneModulo as written: `while (res >= M) res = fold(res);`

  /** The value of `res` after at most `steps` turns of the loop as written,
      which keeps turning while res >= M. */
  function IterateAsWritten(res: nat, steps: nat): nat
  {
    if steps == 0 || res < Mersenne then res else IterateAsWritten(Fold(res), steps - 1)
  }

  /** M is a fixed point of the loop body while the guard res >= M still
      holds at M: once there, the loop never leaves. */
  lemma {:induction false} StuckAtMersenne(steps: nat)
    ensures IterateAsWritten(Mersenne, steps) == Mersenne
  {
    if steps > 0 {
      assert Fold(Mersenne) == Mersenne;
      StuckAtMersenne(steps - 1);
    }
  }

  /** The integer key 39567 hashes from 53 * 39567 + 97 = 4 * M: the loop as
      written reaches M after one turn and its guard holds after any number
      of turns, so hashing that key never terminates. */
  lemma AsWrittenNeverExits(steps: nat)
    ensures ParamA * 39567 + ParamB == 4 * Mersenne
    ensures IterateAsWritten(ParamA * 39567 + ParamB, steps) >= Mersenne
  {
    var n := ParamA * 39567 + ParamB;
    if steps > 0 {
      assert Fold(n) == Mersenne;
      StuckAtMersenne(steps - 1);
    }
  }

  /** fastMersenneModulo with the guard the final `res == M ? 0 : res`
      evidently expects, `res > M`: it computes n mod M. */
  method FastMersenneModulo(n: nat) returns (r: nat)
    ensures r == n % Mersenne
  {
    var res: nat := n;
    while res > Mersenne
      invariant res % Mersenne == n % Mersenne
      decreases res
    {
      FoldSpec(res);
      res := res % Radix + res / Radix;
    }
    r := if res == Mersenne then 0 else res;
  }

  // ---------------------------------------------------------------------------
  // univHash

  /** The string fold `hv = 37 * hv + key[i]`, left to right. */
  function Poly(s: string): nat
  {
    if s == [] then 0 else Base * Poly(s[..|s| - 1]) + s[|s| - 1] as nat
  }

  /** The integer a key is hashed through. */
  function KeyValue(key: Key): nat
  {
    match key
    case IntKey(n) => n
    case TextKey(s) => Poly(s)
  }

  /** The bucket of a key in a table of `tableSize` chains. */
  function Bucket(key: Key, tableSize: nat): (b: nat)
    requires tableSize > 0
    ensures b < tableSize
  {
    ((ParamA * KeyValue(key) + ParamB) % Mersenne) % tableSize
  }

  /** HashFunc<long long>::univHash. */
  method UnivHashInt(key: nat, tableSize: nat) returns (hv: nat)
    requires tableSize > 0
    ensures hv == Bucket(IntKey(key), tableSize) && hv < tableSize
  {
    hv := FastMersenneModulo(ParamA * key + ParamB);
    hv := hv % tableSize;
  }

  /** HashFunc<std::string>::univHash. */
  method UnivHashText(key: string, tableSize: nat) returns (hv: nat)
    requires tableSize > 0
    ensures hv == Bucket(TextKey(key), tableSize) && hv < tableSize
  {
    hv := 0;
    for i := 0 to |key|
      invariant hv == Poly(key[..i])
    {
      assert key[..i + 1][..i] == key[..i];
      hv := Base * hv + key[i] as nat;
    }
    assert key[..|key|] == key;
    hv := FastMersenneModulo(ParamA * hv + ParamB);
    hv := hv % tableSize;
  }

  /** The hash the table uses for either key type. */
  method UnivHash(key: Key, tableSize: nat) returns (hv: nat)
    requires tableSize > 0
    ensures hv == Bucket(key, tableSize) && hv < tableSize
  {
    match key
    case IntKey(n) => hv := UnivHashInt(n, tableSize);
    case TextKey(s) => hv := UnivHashText(s, tableSize);
  }
}
