/** The key mapping of `getKeyPress` (BytePusherDriver.cs): keys 0-9 set
    bits 0-9 and keys A-F bits 10-15 of a 16-bit mask. */
module KeyMapping {
  import opened Bytes

  /** The pressed keys the switch distinguishes; every other key of the
      keyboard is `Other`. */
  datatype Key = D0 | D1 | D2 | D3 | D4 | D5 | D6 | D7 | D8 | D9
               | A | B | C | D | E | F | Other(code: nat)

  /** The bit a hexadecimal key stands for; -1 for any other key. */
  function KeyIndex(k: Key): (i: int)
    ensures -1 <= i < 16
    ensures i == -1 <==> k.Other?
  {
    match k
    case D0 => 0 case D1 => 1 case D2 => 2 case D3 => 3 case D4 => 4
    case D5 => 5 case D6 => 6 case D7 => 7 case D8 => 8 case D9 => 9
    case A => 10 case B => 11 case C => 12 case D => 13 case E => 14 case F => 15
    case Other(_) => -1
  }

  /** The amount each `case` adds to `key`. */
  function KeyValue(k: Key): UShort
  {
    match k
    case D0 => 1 case D1 => 2 case D2 => 4 case D3 => 8
    case D4 => 16 case D5 => 32 case D6 => 64 case D7 => 128
    case D8 => 256 case D9 => 512 case A => 1024 case B => 2048
    case C => 4096 case D => 8192 case E => 16384 case F => 32768
    case Other(_) => 0
  }

  /** `ushort` addition (`key += value`): wraps modulo 2^16. */
  function AddUShort(a: UShort, b: UShort): UShort
  {
    (a + b) % 0x1_0000
  }

  /** `getKeyPress` over the list of pressed keys. */
  function KeyPress(keys: seq<Key>): (r: UShort)
    ensures (forall i :: 0 <= i < |keys| ==> keys[i].Other?) ==> r == 0
    ensures |keys| == 1 ==> r == KeyValue(keys[0])
  {
    if |keys| == 0 then 0 else AddUShort(KeyValue(keys[0]), KeyPress(keys[1..]))
  }

  predicate Distinct(keys: seq<Key>)
  {
    forall i, j :: 0 <= i < j < |keys| ==> keys[i] != keys[j]
  }

  function Pow2(i: nat): (p: nat)
    ensures p >= 1
  {
    if i == 0 then 1 else 2 * Pow2(i - 1)
  }

  /** Bit i of a non-negative number. */
  function BitOf(x: nat, i: nat): (b: nat)
    ensures b < 2
  {
    (x / Pow2(i)) % 2
  }

  /** The indexes of the hexadecimal keys in the list. */
  function Pressed(keys: seq<Key>): set<nat>
  {
    set j | 0 <= j < |keys| && !keys[j].Other? :: KeyIndex(keys[j]) as nat
  }

  /** The number whose bits below n are exactly the members of s below n:
      the bitwise OR of those single bits. */
  function Mask(s: set<nat>, n: nat): nat
  {
    if n == 0 then 0 else Mask(s, n - 1) + (if n - 1 in s then Pow2(n - 1) else 0)
  }

  /** The table of the switch is one bit per hexadecimal key. */
  lemma KeyValueIsBit(k: Key)
    ensures !k.Other? ==> KeyValue(k) == Pow2(KeyIndex(k))
    ensures k.Other? ==> KeyValue(k) == 0
  {
    assert Pow2(1) == 2 && Pow2(2) == 4 && Pow2(3) == 8 && Pow2(4) == 16;
    assert Pow2(5) == 32 && Pow2(6) == 64 && Pow2(7) == 128 && Pow2(8) == 256;
    assert Pow2(9) == 512 && Pow2(10) == 1024 && Pow2(11) == 2048 && Pow2(12) == 4096;
    assert Pow2(13) == 8192 && Pow2(14) == 16384 && Pow2(15) == 32768;
  }

  lemma {:induction false} MaskBound(s: set<nat>, n: nat)
    ensures Mask(s, n) < Pow2(n)
  {
    if n > 0 {
      MaskBound(s, n - 1);
    }
  }

  lemma {:induction false} MaskEmpty(n: nat)
    ensures Mask({}, n) == 0
  {
    if n > 0 {
      MaskEmpty(n - 1);
    }
  }

  /** Adding a new member i adds its bit, once. */
  lemma {:induction false} MaskInsert(s: set<nat>, i: nat, n: nat)
    requires i !in s
    ensures Mask(s + {i}, n) == Mask(s, n) + (if i < n then Pow2(i) else 0)
  {
    if n > 0 {
      MaskInsert(s, i, n - 1);
    }
  }

  /** (a + b * m) / m == a / m + b for m > 0. */
  lemma DivAddMultiple(a: nat, b: nat, m: nat)
    requires m > 0
    ensures (a + b * m) / m == a / m + b
  {
    var q := a / m;
    var r := a % m;
    assert a == q * m + r;
    assert a + b * m == (q + b) * m + r;
    DivUnique(a + b * m, m, q + b, r);
  }

  /** Euclidean division has one quotient for each remainder in range. */
  lemma DivUnique(x: int, m: int, q: int, r: int)
    requires m > 0 && 0 <= r < m && x == q * m + r
    ensures x / m == q
  {
    var q' := x / m;
    var r' := x % m;
    assert x == q' * m + r';
    assert (q' - q) * m == r - r';
    if q' > q {
      MulAtLeast(q' - q, m);
    } else if q' < q {
      MulAtLeast(q - q', m);
    }
  }

  lemma MulAtLeast(d: int, m: int)
    requires d >= 1 && m > 0
    ensures d * m >= m
  {
  }

  lemma PowSplit(i: nat, k: nat)
    ensures Pow2(i + k) == Pow2(i) * Pow2(k)
  {
    if k > 0 {
      PowSplit(i, k - 1);
      assert Pow2(i + k) == 2 * Pow2(i + k - 1);
    }
  }

  /** Adding an even multiple of 2^i leaves bit i alone. */
  lemma BitIgnoresHigher(low: nat, c: nat, i: nat)
    ensures BitOf(low + (2 * c) * Pow2(i), i) == BitOf(low, i)
  {
    var p := Pow2(i);
    DivAddMultiple(low, 2 * c, p);
    assert (low / p + 2 * c) % 2 == (low / p) % 2;
  }

  /** Below 2^i, adding top * 2^i sets bit i to top. */
  lemma BitOfTop(low: nat, top: nat, i: nat)
    requires low < Pow2(i) && top < 2
    ensures BitOf(low + top * Pow2(i), i) == top
  {
    var p := Pow2(i);
    DivAddMultiple(low, top, p);
    DivUnique(low, p, 0, low);
  }

  /** Bit i of the mask is 1 exactly when i is a member. */
  lemma {:induction false} MaskBit(s: set<nat>, n: nat, i: nat)
    requires i < n
    ensures BitOf(Mask(s, n), i) == (if i in s then 1 else 0)
  {
    var low := Mask(s, n - 1);
    var top := if n - 1 in s then 1 else 0;
    assert Mask(s, n) == low + top * Pow2(n - 1);
    if i < n - 1 {
      MaskBit(s, n - 1, i);
      var c := top * Pow2(n - 2 - i);
      PowSplit(i, n - 1 - i);
      assert Pow2(n - 1 - i) == 2 * Pow2(n - 2 - i);
      assert top * Pow2(n - 1) == (2 * c) * Pow2(i);
      BitIgnoresHigher(low, c, i);
    } else {
      MaskBound(s, n - 1);
      BitOfTop(low, top, i);
    }
  }

  /** The pressed indexes of a list are those of its head and its tail. */
  lemma PressedCons(keys: seq<Key>)
    requires |keys| > 0
    ensures Pressed(keys) ==
      Pressed(keys[1..]) + (if keys[0].Other? then {} else {KeyIndex(keys[0]) as nat})
  {
    var rest := keys[1..];
    var head: set<nat> := if keys[0].Other? then {} else {KeyIndex(keys[0]) as nat};
    forall x ensures x in Pressed(keys) <==> x in Pressed(rest) + head {
      if x in Pressed(keys) && x !in head {
        var j :| 0 <= j < |keys| && !keys[j].Other? && KeyIndex(keys[j]) == x;
        assert rest[j - 1] == keys[j];
      }
      if x in Pressed(rest) {
        var j :| 0 <= j < |rest| && !rest[j].Other? && KeyIndex(rest[j]) == x;
        assert keys[j + 1] == rest[j];
      }
    }
  }

  /** In a list of distinct keys the head's index is not pressed again. */
  lemma DistinctCons(keys: seq<Key>)
    requires |keys| > 0 && Distinct(keys)
    ensures Distinct(keys[1..])
    ensures !keys[0].Other? ==> KeyIndex(keys[0]) as nat !in Pressed(keys[1..])
  {
    var rest := keys[1..];
    forall i, j | 0 <= i < j < |rest| ensures rest[i] != rest[j] {
      assert rest[i] == keys[i + 1] && rest[j] == keys[j + 1];
    }
    if !keys[0].Other? && KeyIndex(keys[0]) as nat in Pressed(rest) {
      var j :| 0 <= j < |rest| && !rest[j].Other? && KeyIndex(rest[j]) == KeyIndex(keys[0]);
      assert keys[j + 1] == rest[j];
      HexKeyIndexInjective(keys[0], rest[j]);
    }
  }

  /** Distinct pressed keys never make the sum carry: getKeyPress yields the
      mask of the pressed keys' bits. */
  lemma {:induction false} KeyPressIsMask(keys: seq<Key>)
    requires Distinct(keys)
    ensures KeyPress(keys) == Mask(Pressed(keys), 16)
  {
    if |keys| > 0 {
      var k := keys[0];
      var rest := keys[1..];
      DistinctCons(keys);
      KeyPressIsMask(rest);
      PressedCons(keys);
      KeyValueIsBit(k);
      assert KeyPress(keys) == (KeyValue(k) + KeyPress(rest)) % 0x1_0000;
      if k.Other? {
        assert Pressed(keys) == Pressed(rest);
      } else {
        var i: nat := KeyIndex(k);
        assert Pressed(keys) == Pressed(rest) + {i};
        MaskInsert(Pressed(rest), i, 16);
        MaskBound(Pressed(keys), 16);
        assert Pow2(16) == 0x1_0000 by { KeyValueIsBit(F); }
        assert KeyValue(k) + KeyPress(rest) == Mask(Pressed(keys), 16);
      }
    } else {
      assert Pressed(keys) == {};
      MaskEmpty(16);
    }
  }

  lemma HexKeyIndexInjective(k: Key, k': Key)
    requires !k.Other? && !k'.Other? && KeyIndex(k) == KeyIndex(k')
    ensures k == k'
  {
  }

  /** Bit i of getKeyPress's result is set exactly when the key of index i
      is pressed: for distinct keys the sum is the bitwise OR. */
  lemma KeyPressBits(keys: seq<Key>, i: nat)
    requires Distinct(keys) && i < 16
    ensures BitOf(KeyPress(keys), i) == 1 <==>
      (exists j :: 0 <= j < |keys| && KeyIndex(keys[j]) == i)
  {
    KeyPressIsMask(keys);
    MaskBit(Pressed(keys), 16, i);
  }

  /** Without distinctness the sum carries: key 0 counted twice reads as
      key 1. */
  lemma RepeatedKeyCarries()
    ensures KeyPress([D0, D0]) == KeyPress([D1])
  {
  }
}
