/** 32-bit words as numbers, with bitwise and, exclusive-or and the laws the flash store rests on. */
module Words {

  type Word = x: nat | x < 0x1_0000_0000

  const ONES: Word := 0xFFFF_FFFF

  function BitAnd(x: nat, y: nat): nat {
    if x == 0 || y == 0 then 0
    else (if x % 2 == 1 && y % 2 == 1 then 1 else 0) + 2 * BitAnd(x / 2, y / 2)
  }

  function BitXor(x: nat, y: nat): nat {
    if x == 0 && y == 0 then 0
    else (if x % 2 != y % 2 then 1 else 0) + 2 * BitXor(x / 2, y / 2)
  }

  function Pow2(k: nat): (p: nat)
    ensures p > 0
  {
    if k == 0 then 1 else 2 * Pow2(k - 1)
  }

  lemma WordWidth()
    ensures Pow2(32) == 0x1_0000_0000
  {
    assert Pow2(8) == 0x100;
    assert Pow2(16) == 0x1_0000;
    assert Pow2(24) == 0x100_0000;
  }

  lemma {:induction false} Bounds(x: nat, y: nat, k: nat)
    requires x < Pow2(k) && y < Pow2(k)
    ensures BitAnd(x, y) < Pow2(k) && BitXor(x, y) < Pow2(k)
  {
    if k == 0 {
    } else {
      Bounds(x / 2, y / 2, k - 1);
    }
  }

  function And(x: Word, y: Word): Word {
    WordWidth();
    Bounds(x, y, 32);
    BitAnd(x, y)
  }

  function Xor2(x: Word, y: Word): Word {
    WordWidth();
    Bounds(x, y, 32);
    BitXor(x, y)
  }

  lemma {:induction false} AllOnes(x: nat, k: nat)
    requires x < Pow2(k)
    ensures BitAnd(Pow2(k) - 1, x) == x
  {
    if k == 0 || x == 0 {
    } else {
      AllOnes(x / 2, k - 1);
    }
  }

  /** An erased word takes any value. */
  lemma OnesAnd(x: Word)
    ensures And(ONES, x) == x
  {
    WordWidth();
    AllOnes(x, 32);
  }

  lemma {:induction false} BitXorCancels(a: nat, b: nat, x: nat)
    ensures BitXor(a, x) == BitXor(b, x) <==> a == b
    ensures BitXor(x, a) == BitXor(x, b) <==> a == b
  {
    if a == 0 && b == 0 && x == 0 {
    } else {
      BitXorCancels(a / 2, b / 2, x / 2);
      BitXorStep(a, x);
      BitXorStep(b, x);
      BitXorStep(x, a);
      BitXorStep(x, b);
    }
  }

  lemma Halve(b: nat, q: nat)
    requires b < 2
    ensures (b + 2 * q) / 2 == q && (b + 2 * q) % 2 == b
  {
  }

  lemma BitXorStep(x: nat, y: nat)
    ensures BitXor(x, y) / 2 == BitXor(x / 2, y / 2)
    ensures BitXor(x, y) % 2 == if x % 2 != y % 2 then 1 else 0
  {
    Halve(if x % 2 != y % 2 then 1 else 0, BitXor(x / 2, y / 2));
  }

  lemma {:induction false} BitXorUnits(x: nat)
    ensures BitXor(x, x) == 0 && BitXor(0, x) == x
  {
    if x == 0 {
      assert BitXor(0, 0) == 0;
    } else {
      BitXorUnits(x / 2);
    }
  }
}
