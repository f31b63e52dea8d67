// Byte ranges in a 64-bit address space.
module BaaRanges {
  import opened Arithmetic

  const UNKNOWN_SIZE: nat := MAX64

  function Byte(address: int, i: nat): nat {
    (address + i) % TWO64
  }

  /** No byte of the first range is a byte of the second. */
  ghost predicate Disjoint(a1: int, size1: nat, a2: int, size2: nat) {
    forall i: nat, j: nat :: i < size1 && j < size2 ==> Byte(a1, i) != Byte(a2, j)
  }

  /** A first range t bytes above a second, going up, leaves it alone: the second fits below and the first
      in what remains. */
  predicate Clear(t: nat, size1: nat, size2: nat) {
    size1 == 0 || size2 == 0 || (size2 <= t && size1 <= TWO64 - t)
  }

  /** Two ranges are disjoint exactly when their distance is clear. */
  lemma DisjointIff(a1: int, size1: nat, a2: int, size2: nat, t: nat)
    requires t < TWO64 && Cong(a1 - a2, t, TWO64) && size1 <= MAX64 && size2 <= MAX64
    ensures Disjoint(a1, size1, a2, size2) <==> Clear(t, size1, size2)
  {
    hide Cong;
    if size2 <= t && size1 <= TWO64 - t {
      forall i: nat, j: nat | i < size1 && j < size2 ensures Byte(a1, i) != Byte(a2, j) {
        if Byte(a1, i) == Byte(a2, j) {
          SameByte(a1, i, a2, j, t);
          CongEqual(t + i - j, 0, TWO64);
        }
      }
    } else if size1 > 0 && size2 > 0 {
      var i, j := if t < size2 then 0 else TWO64 - t, if t < size2 then t else 0;
      if t < size2 { CongRefl(0, TWO64); } else { CongBy(TWO64, 0, TWO64, 1); }
      SameByte(a1, i, a2, j, t);
      assert Byte(a1, i) == Byte(a2, j);
    }
  }

  lemma SameByte(a1: int, i: nat, a2: int, j: nat, t: nat)
    requires Cong(a1 - a2, t, TWO64)
    ensures Byte(a1, i) == Byte(a2, j) <==> Cong(t + i - j, 0, TWO64)
  {
    hide Cong;
    CongEqualMod(a1 + i, a2 + j, TWO64);
    CongRefl(i - j, TWO64);
    CongAdd(a1 - a2, t, i - j, i - j, TWO64);
    if Cong(a1 + i, a2 + j, TWO64) {
      CongRefl(a2 + j, TWO64);
      CongAdd(a1 + i, a2 + j, a2 + j, a2 + j, TWO64);
      CongSym(a1 - a2 + (i - j), t + (i - j), TWO64);
      CongTrans(t + i - j, a1 - a2 + (i - j), 0, TWO64);
    }
    if Cong(t + i - j, 0, TWO64) {
      CongTrans(a1 - a2 + (i - j), t + (i - j), 0, TWO64);
      CongRefl(a2 + j, TWO64);
      CongAdd(a1 + i - (a2 + j), 0, a2 + j, a2 + j, TWO64);
    }
  }

  /** The distance between two addresses as the test sees it. */
  lemma Distance(a1: int, a2: int, d: int) returns (t: nat)
    requires Cong(a1 - a2, d, TWO64)
    ensures t == d % TWO64 < TWO64 && Cong(a1 - a2, t, TWO64)
  {
    hide Cong;
    t := d % TWO64;
    CongMod(d, TWO64);
    CongTrans(a1 - a2, d, t, TWO64);
  }
}
