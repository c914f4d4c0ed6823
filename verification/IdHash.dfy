/** The 64-bit mixer that hashes identifiers. */
module IdHash {

  function Shift30(x: bv64): bv64 { x ^ (x >> 30) }
  function Shift27(x: bv64): bv64 { x ^ (x >> 27) }
  function Shift31(x: bv64): bv64 { x ^ (x >> 31) }
  function Times1(x: bv64): bv64 { x * 0xbf58476d1ce4e5b9 }
  function Times2(x: bv64): bv64 { x * 0x94d049bb133111eb }

  function Unshift30(y: bv64): bv64 { y ^ (y >> 30) ^ (y >> 60) }
  function Unshift27(y: bv64): bv64 { y ^ (y >> 27) ^ (y >> 54) }
  function Unshift31(y: bv64): bv64 { y ^ (y >> 31) ^ (y >> 62) }
  function Over1(y: bv64): bv64 { y * 0x96de1b173f119089 }
  function Over2(y: bv64): bv64 { y * 0x319642b2d24d8ec3 }

  function Mix(x: bv64): bv64 { Shift31(Times2(Shift27(Times1(Shift30(x))))) }

  function Unmix(h: bv64): bv64 { Unshift30(Over1(Unshift27(Over2(Unshift31(h))))) }

  /** The hasher, reassigning its word step by step; the id can be read off its hash. */
  method Hash(id: bv64) returns (x: bv64)
    ensures x == Mix(id)
    ensures Unmix(x) == id && forall other :: Mix(other) == x ==> other == id
  {
    hide Shift30, Times1, Shift27, Times2, Shift31, Unmix;
    x := id;
    x := Shift30(x);
    x := Times1(x);
    x := Shift27(x);
    x := Times2(x);
    x := Shift31(x);
    UnmixMix(id);
    forall other | Mix(other) == x
      ensures other == id
    {
      UnmixMix(other);
    }
  }

  /** Three ids and their hashes. */
  lemma MixedIds()
    ensures Mix(0) == 0 && Mix(1) == 0x5692161d100b05e5 && Mix(0x123456789abcdef0) == 0x9629f58e8ec5b906
  {
  }

  /** Each xor-shift is invertible. */
  lemma Shift30Inverts(x: bv64)
    ensures Unshift30(Shift30(x)) == x == Shift30(Unshift30(x))
  {
    assert Unshift30(x ^ (x >> 30)) == x == Shift30(x ^ (x >> 30) ^ (x >> 60));
  }

  lemma Shift27Inverts(x: bv64)
    ensures Unshift27(Shift27(x)) == x == Shift27(Unshift27(x))
  {
    assert Unshift27(x ^ (x >> 27)) == x == Shift27(x ^ (x >> 27) ^ (x >> 54));
  }

  lemma Shift31Inverts(x: bv64)
    ensures Unshift31(Shift31(x)) == x == Shift31(Unshift31(x))
  {
    assert Unshift31(x ^ (x >> 31)) == x == Shift31(x ^ (x >> 31) ^ (x >> 62));
  }

  /** Each odd multiplier has an inverse modulo 2^64. */
  lemma MultipliersInvert(x: bv64)
    ensures Over1(Times1(x)) == x == Times1(Over1(x))
    ensures Over2(Times2(x)) == x == Times2(Over2(x))
  {
    assert Over1(x * 0xbf58476d1ce4e5b9) == x == Times1(x * 0x96de1b173f119089);
    assert Over2(x * 0x94d049bb133111eb) == x == Times2(x * 0x319642b2d24d8ec3);
  }

  lemma UnmixMix(x: bv64)
    ensures Unmix(Mix(x)) == x
  {
    hide Shift30, Shift27, Shift31, Times1, Times2, Unshift30, Unshift27, Unshift31, Over1, Over2;
    Shift30Inverts(x);
    var a := Shift30(x);
    MultipliersInvert(a);
    var b := Times1(a);
    Shift27Inverts(b);
    var c := Shift27(b);
    MultipliersInvert(c);
    Shift31Inverts(Times2(c));
  }

  lemma MixUnmix(h: bv64)
    ensures Mix(Unmix(h)) == h
  {
    hide Shift30, Shift27, Shift31, Times1, Times2, Unshift30, Unshift27, Unshift31, Over1, Over2;
    Shift31Inverts(h);
    var d := Unshift31(h);
    MultipliersInvert(d);
    var c := Over2(d);
    Shift27Inverts(c);
    var b := Unshift27(c);
    MultipliersInvert(b);
    Shift30Inverts(Over1(b));
  }

  /** The mixer is a bijection on 64-bit words: it hits every word, and two ids never collide. */
  lemma MixIsABijection(x: bv64, y: bv64)
    ensures Mix(x) == Mix(y) <==> x == y
    ensures exists id :: Mix(id) == y
  {
    UnmixMix(x);
    UnmixMix(y);
    MixUnmix(y);
    hide Mix, Unmix;
  }
}
