// The variable indices of decomposed address computations, and their difference.
module BaaDifference {
  import opened Arithmetic
  import opened BaaLinear

  datatype Index = Index(v: Value, zext: nat, sext: nat, scale: int)

  /** What makes two indices the same variable. */
  datatype Key = Key(v: Value, zext: nat, sext: nat)

  type Valuation = Key -> int

  function KeyOf(ix: Index): Key { Key(ix.v, ix.zext, ix.sext) }

  const TWO63: nat := 0x8000_0000_0000_0000

  predicate Int64(x: int) { -0x8000_0000_0000_0000 <= x < 0x8000_0000_0000_0000 }

  /** Conversion to int64_t. */
  function Wrap64(x: int): (r: int)
    ensures Int64(r)
  {
    var u := x % TWO64;
    if u >= TWO63 then u - TWO64 else u
  }

  lemma Wrap64Cong(x: int)
    ensures Cong(Wrap64(x), x, TWO64)
  {
    CongMod(x, TWO64);
    var u := x % TWO64;
    if u >= TWO63 {
      CongBy(u - TWO64, u, TWO64, -1);
      CongTrans(u - TWO64, u, x, TWO64);
    }
  }

  function Term(ix: Index, val: Valuation): int { ix.scale * val(KeyOf(ix)) }

  /** The sum of scaled variables. */
  function LinearValue(s: seq<Index>, val: Valuation): int {
    if s == [] then 0 else Term(s[0], val) + LinearValue(s[1..], val)
  }

  lemma {:induction false} LinearAppend(a: seq<Index>, b: seq<Index>, val: Valuation)
    ensures LinearValue(a + b, val) == LinearValue(a, val) + LinearValue(b, val)
  {
    if a == [] { assert a + b == b; } else { assert (a + b)[1..] == a[1..] + b; LinearAppend(a[1..], b, val); }
  }

  lemma LinearSplit(s: seq<Index>, j: nat, val: Valuation)
    requires j < |s|
    ensures LinearValue(s, val) == LinearValue(s[..j], val) + Term(s[j], val) + LinearValue(s[j + 1..], val)
  {
    assert s == s[..j] + s[j..] && s[j..][1..] == s[j + 1..];
    LinearAppend(s[..j], s[j..], val);
  }

  // -------------------------------------------------------- the difference

  /** The first entry with a key, if any. */
  function Find(s: seq<Index>, key: Key): (j: nat)
    ensures j <= |s| && (j < |s| ==> KeyOf(s[j]) == key)
    ensures forall i :: 0 <= i < j ==> KeyOf(s[i]) != key
  {
    if s == [] then 0 else if KeyOf(s[0]) == key then 0 else 1 + Find(s[1..], key)
  }

  /** One variable of the second list taken off the first. The oracle answers whether a value is
      surely equal to itself in the cycles being looked through. */
  function SubtractOne(dest: seq<Index>, ix: Index, same: Value -> bool): seq<Index> {
    var j := Find(dest, KeyOf(ix));
    if same(ix.v) && j < |dest| then
      if dest[j].scale != ix.scale then dest[j := dest[j].(scale := Wrap64(dest[j].scale - ix.scale))]
      else dest[..j] + dest[j + 1..]
    else if ix.scale != 0 then dest + [ix.(scale := Wrap64(-ix.scale))]
    else dest
  }

  function Difference(dest: seq<Index>, src: seq<Index>, same: Value -> bool): seq<Index> {
    if src == [] then dest
    else SubtractOne(Difference(dest, src[..|src| - 1], same), src[|src| - 1], same)
  }

  class IndexList {
    var entries: seq<Index>

    constructor (entries: seq<Index>)
      ensures this.entries == entries
    {
      this.entries := entries;
    }

    method GetIndexDifference(src: seq<Index>, same: Value -> bool)
      modifies this
      ensures entries == Difference(old(entries), src, same)
    {
      if src == [] { return; }
      hide SubtractOne;
      ghost var dest := entries;
      for i := 0 to |src|
        invariant entries == Difference(dest, src[..i], same)
      {
        assert src[..i + 1][..i] == src[..i];
        SubtractIndex(src[i], same);
      }
      assert src[..|src|] == src;
    }

    /** One source index: find its variable, subtract the scale there, or append its negation. */
    method SubtractIndex(ix: Index, same: Value -> bool)
      modifies this
      ensures entries == SubtractOne(old(entries), ix, same)
    {
      ghost var found := Find(entries, KeyOf(ix));
      var scale := ix.scale;
      for j := 0 to |entries|
        invariant entries == old(entries) && (same(ix.v) ==> j <= found)
      {
        if !(entries[j].v == ix.v && same(ix.v)) || entries[j].zext != ix.zext || entries[j].sext != ix.sext {
          continue;
        }
        assert KeyOf(entries[j]) == KeyOf(ix);
        if entries[j].scale != scale {
          entries := entries[j := entries[j].(scale := Wrap64(entries[j].scale - scale))];
        } else {
          entries := entries[..j] + entries[j + 1..];
        }
        return;
      }
      if scale != 0 {
        entries := entries + [ix.(scale := Wrap64(-scale))];
      }
    }
  }

  // -------------------------------------------------------------- meaning

  lemma ScaledCong(a: int, b: int, x: int)
    requires Cong(a, b, TWO64)
    ensures Cong(a * x, b * x, TWO64)
  {
    CongMul(a, b, x, TWO64);
  }

  lemma LessenedValue(dest: seq<Index>, j: nat, scale: int, val: Valuation)
    requires j < |dest|
    ensures Cong(LinearValue(dest[j := dest[j].(scale := Wrap64(dest[j].scale - scale))], val),
                 LinearValue(dest, val) - scale * val(KeyOf(dest[j])), TWO64)
  {
    var d, x, s := dest[j].scale, val(KeyOf(dest[j])), Wrap64(dest[j].scale - scale);
    var r := dest[j := dest[j].(scale := s)];
    LinearSplit(dest, j, val);
    LinearSplit(r, j, val);
    assert r[..j] == dest[..j] && r[j + 1..] == dest[j + 1..];
    var rest := LinearValue(dest[..j], val) + LinearValue(dest[j + 1..], val);
    assert KeyOf(r[j]) == KeyOf(dest[j]);
    Wrap64Cong(d - scale);
    hide Cong, Wrap64, LinearValue;
    ScaledCong(s, d - scale, x);
    assert (d - scale) * x == d * x - scale * x;
    CongRefl(rest, TWO64);
    CongAdd(s * x, d * x - scale * x, rest, rest, TWO64);
  }

  lemma AppendedValue(dest: seq<Index>, ix: Index, val: Valuation)
    ensures Cong(LinearValue(dest + [ix.(scale := Wrap64(-ix.scale))], val),
                 LinearValue(dest, val) - Term(ix, val), TWO64)
  {
    var x, entry := val(KeyOf(ix)), ix.(scale := Wrap64(-ix.scale));
    LinearAppend(dest, [entry], val);
    assert [entry][1..] == [];
    Wrap64Cong(-ix.scale);
    hide Cong, Wrap64;
    ScaledCong(entry.scale, -ix.scale, x);
    assert (-ix.scale) * x == -(ix.scale * x);
    CongRefl(LinearValue(dest, val), TWO64);
    CongAdd(LinearValue(dest, val), LinearValue(dest, val), entry.scale * x, -(ix.scale * x), TWO64);
  }

  lemma SubtractOneValue(dest: seq<Index>, ix: Index, same: Value -> bool, val: Valuation)
    ensures Cong(LinearValue(SubtractOne(dest, ix, same), val), LinearValue(dest, val) - Term(ix, val), TWO64)
  {
    hide Cong, Wrap64, LinearValue;
    var j := Find(dest, KeyOf(ix));
    CongRefl(LinearValue(dest, val) - Term(ix, val), TWO64);
    if same(ix.v) && j < |dest| {
      if dest[j].scale != ix.scale {
        LessenedValue(dest, j, ix.scale, val);
      } else {
        LinearSplit(dest, j, val);
        LinearAppend(dest[..j], dest[j + 1..], val);
      }
    } else if ix.scale != 0 {
      AppendedValue(dest, ix, val);
    } else {
      assert Term(ix, val) == 0 by { assert 0 * val(KeyOf(ix)) == 0; }
    }
  }

  /** The result's linear value is the first minus the second, whatever the variables are. */
  lemma {:induction false} DifferenceValue(dest: seq<Index>, src: seq<Index>, same: Value -> bool, val: Valuation)
    ensures Cong(LinearValue(Difference(dest, src, same), val), LinearValue(dest, val) - LinearValue(src, val), TWO64)
  {
    hide Cong, SubtractOne, Term;
    if src == [] {
      CongRefl(LinearValue(dest, val), TWO64);
    } else {
      var n := |src| - 1;
      var prev := Difference(dest, src[..n], same);
      DifferenceValue(dest, src[..n], same, val);
      SubtractOneValue(prev, src[n], same, val);
      LinearSplit(src, n, val);
      var term := Term(src[n], val);
      CongRefl(term, TWO64);
      CongAdd(LinearValue(prev, val), LinearValue(dest, val) - LinearValue(src[..n], val), term, term, TWO64);
      CongTrans(LinearValue(Difference(dest, src, same), val), LinearValue(prev, val) - term,
                LinearValue(dest, val) - LinearValue(src[..n], val) - term, TWO64);
    }
  }

  // ------------------------------------------------ two iterations of a cycle

  /** The entries up to n valued for the first pointer, the others for the second. */
  function SplitValue(s: seq<Index>, n: nat, first: Valuation, second: Valuation): int
    requires n <= |s|
  {
    LinearValue(s[..n], first) + LinearValue(s[n..], second)
  }

  lemma SplitAt(s: seq<Index>, n: nat, j: nat, first: Valuation, second: Valuation)
    requires n <= |s| && j < |s|
    ensures SplitValue(s, n, first, second)
         == SplitValue(s[..j] + s[j + 1..], if j < n then n - 1 else n, first, second)
            + s[j].scale * ValueAt(s, n, j, first, second)
  {
    var rest := s[..j] + s[j + 1..];
    if j < n {
      LinearSplit(s[..n], j, first);
      assert s[..n][..j] == s[..j] && s[..n][j + 1..] == s[j + 1..n];
      assert rest[..n - 1] == s[..j] + s[j + 1..n] && rest[n - 1..] == s[n..];
      LinearAppend(s[..j], s[j + 1..n], first);
    } else {
      LinearSplit(s[n..], j - n, second);
      assert s[n..][..j - n] == s[n..j] && s[n..][j - n + 1..] == s[j + 1..];
      assert rest[..n] == s[..n] && rest[n..] == s[n..j] + s[j + 1..];
      LinearAppend(s[n..j], s[j + 1..], second);
    }
  }

  lemma SplitAppend(s: seq<Index>, n: nat, ix: Index, first: Valuation, second: Valuation)
    requires n <= |s|
    ensures SplitValue(s + [ix], n, first, second) == SplitValue(s, n, first, second) + Term(ix, second)
  {
    assert (s + [ix])[..n] == s[..n] && (s + [ix])[n..] == s[n..] + [ix];
    LinearAppend(s[n..], [ix], second);
    assert [ix][1..] == [];
  }

  /** The value of an entry's variable. */
  function ValueAt(s: seq<Index>, n: nat, j: nat, first: Valuation, second: Valuation): int
    requires j < |s|
  {
    if j < n then first(KeyOf(s[j])) else second(KeyOf(s[j]))
  }

  lemma SplitLessened(s: seq<Index>, n: nat, j: nat, scale: int, first: Valuation, second: Valuation)
    requires n <= |s| && j < |s|
    ensures Cong(SplitValue(s[j := s[j].(scale := Wrap64(s[j].scale - scale))], n, first, second),
                 SplitValue(s, n, first, second) - scale * ValueAt(s, n, j, first, second), TWO64)
  {
    var r := s[j := s[j].(scale := Wrap64(s[j].scale - scale))];
    if j < n {
      assert r[n..] == s[n..] && s[..n][j := s[..n][j].(scale := Wrap64(s[..n][j].scale - scale))] == r[..n];
      LessenedValue(s[..n], j, scale, first);
      CongRefl(LinearValue(s[n..], second), TWO64);
      AddCong(LinearValue(r[..n], first), LinearValue(s[..n], first) - scale * ValueAt(s, n, j, first, second),
              LinearValue(r[n..], second), LinearValue(s[n..], second));
    } else {
      var k := j - n;
      assert r[..n] == s[..n] && s[n..][k := s[n..][k].(scale := Wrap64(s[n..][k].scale - scale))] == r[n..];
      LessenedValue(s[n..], k, scale, second);
      CongRefl(LinearValue(s[..n], first), TWO64);
      AddCong(LinearValue(r[..n], first), LinearValue(s[..n], first),
              LinearValue(r[n..], second), LinearValue(s[n..], second) - scale * ValueAt(s, n, j, first, second));
    }
  }

  lemma AddCong(a: int, b: int, c: int, d: int)
    requires Cong(a, b, TWO64) && Cong(c, d, TWO64)
    ensures Cong(a + c, b + d, TWO64)
  {
    CongAdd(a, b, c, d, TWO64);
  }

  /** Two valuations that differ only where the oracle does not vouch for a value. */
  ghost predicate AgreeWhereSame(same: Value -> bool, first: Valuation, second: Valuation) {
    forall k: Key :: same(k.v) ==> first(k) == second(k)
  }

  lemma SubtractOneSplits(dest: seq<Index>, n: nat, ix: Index, same: Value -> bool, first: Valuation,
                          second: Valuation) returns (n': nat)
    requires n <= |dest| && AgreeWhereSame(same, first, second)
    ensures n' <= |SubtractOne(dest, ix, same)| && n' <= n
    ensures Cong(SplitValue(SubtractOne(dest, ix, same), n', first, second),
                 SplitValue(dest, n, first, second) - Term(ix, second), TWO64)
  {
    hide Cong, Wrap64, LinearValue, SplitValue;
    var j, v := Find(dest, KeyOf(ix)), SplitValue(dest, n, first, second);
    n' := n;
    CongRefl(v - Term(ix, second), TWO64);
    if same(ix.v) && j < |dest| {
      assert same(KeyOf(ix).v) && KeyOf(dest[j]) == KeyOf(ix);
      assert ValueAt(dest, n, j, first, second) == second(KeyOf(ix));
      if dest[j].scale != ix.scale {
        SplitLessened(dest, n, j, ix.scale, first, second);
      } else {
        SplitAt(dest, n, j, first, second);
        n' := if j < n then n - 1 else n;
      }
    } else if ix.scale != 0 {
      var entry := ix.(scale := Wrap64(-ix.scale));
      SplitAppend(dest, n, entry, first, second);
      Wrap64Cong(-ix.scale);
      ScaledCong(entry.scale, -ix.scale, second(KeyOf(ix)));
      assert (-ix.scale) * second(KeyOf(ix)) == -Term(ix, second);
      var t, u := Term(ix, second), Term(entry, second);
      assert u == entry.scale * second(KeyOf(ix));
      CongRefl(v, TWO64);
      CongAdd(v, v, u, -t, TWO64);
      assert v + -t == v - t;
    } else {
      assert Term(ix, second) == 0 by { assert 0 * second(KeyOf(ix)) == 0; }
    }
  }

  /** The two pointers may be in different iterations of a cycle, with different values of the variables that the
      oracle does not vouch for. Valued by the pointer it came from, each entry counted, the result is still the first
      minus the second. */
  lemma {:induction false} DifferenceAcrossCycles(dest: seq<Index>, src: seq<Index>, same: Value -> bool,
                                                  first: Valuation, second: Valuation) returns (n: nat)
    requires AgreeWhereSame(same, first, second)
    ensures n <= |Difference(dest, src, same)| && n <= |dest|
    ensures Cong(SplitValue(Difference(dest, src, same), n, first, second),
                 LinearValue(dest, first) - LinearValue(src, second), TWO64)
  {
    hide Cong, SubtractOne, Term, AgreeWhereSame;
    if src == [] {
      n := |dest|;
      assert dest[..n] == dest && dest[n..] == [];
      CongRefl(LinearValue(dest, first), TWO64);
    } else {
      var m := |src| - 1;
      var prev := Difference(dest, src[..m], same);
      var k := DifferenceAcrossCycles(dest, src[..m], same, first, second);
      n := SubtractOneSplits(prev, k, src[m], same, first, second);
      LinearSplit(src, m, second);
      var term, v := Term(src[m], second), SplitValue(prev, k, first, second);
      hide SplitValue, LinearValue;
      CongRefl(term, TWO64);
      CongAdd(v, LinearValue(dest, first) - LinearValue(src[..m], second), term, term, TWO64);
      CongTrans(SplitValue(Difference(dest, src, same), n, first, second), v - term,
                LinearValue(dest, first) - LinearValue(src[..m], second) - term, TWO64);
    }
  }

  /** Among the entries that the oracle vouches for each variable is listed once, and no scale is zero. */
  ghost predicate CanonicalWhere(s: seq<Index>, same: Value -> bool) {
    && (forall i, j :: 0 <= i < j < |s| && same(s[i].v) ==> KeyOf(s[i]) != KeyOf(s[j]))
    && (forall i :: 0 <= i < |s| ==> Int64(s[i].scale) && s[i].scale != 0)
  }

  lemma SubtractOneKeepsCanonicalWhere(dest: seq<Index>, ix: Index, same: Value -> bool)
    requires CanonicalWhere(dest, same) && Int64(ix.scale) && ix.scale != 0
    ensures CanonicalWhere(SubtractOne(dest, ix, same), same)
  {
    var r, j := SubtractOne(dest, ix, same), Find(dest, KeyOf(ix));
    if same(ix.v) && j < |dest| && dest[j].scale != ix.scale {
      NonZeroWrap(dest[j].scale - ix.scale);
      forall i | 0 <= i < |r| ensures KeyOf(r[i]) == KeyOf(dest[i]) {}
    } else if !same(ix.v) || j == |dest| {
      NonZeroWrap(-ix.scale);
    }
  }

  /** Whatever the oracle says, what it vouches for is listed once. */
  lemma {:induction false} DifferenceListsOnce(dest: seq<Index>, src: seq<Index>, same: Value -> bool)
    requires CanonicalWhere(dest, same) && forall i :: 0 <= i < |src| ==> Int64(src[i].scale) && src[i].scale != 0
    ensures CanonicalWhere(Difference(dest, src, same), same)
  {
    if src != [] {
      var n := |src| - 1;
      assert Int64(src[n].scale) && src[n].scale != 0;
      hide CanonicalWhere, SubtractOne;
      DifferenceListsOnce(dest, src[..n], same);
      SubtractOneKeepsCanonicalWhere(Difference(dest, src[..n], same), src[n], same);
    }
  }

  /** Each variable once, and no zero scales. */
  ghost predicate Canonical(s: seq<Index>) {
    && (forall i, j :: 0 <= i < j < |s| ==> KeyOf(s[i]) != KeyOf(s[j]))
    && (forall i :: 0 <= i < |s| ==> Int64(s[i].scale) && s[i].scale != 0)
  }

  lemma SubtractOneKeepsCanonical(dest: seq<Index>, ix: Index, same: Value -> bool)
    requires Canonical(dest) && Int64(ix.scale) && ix.scale != 0 && same(ix.v)
    ensures Canonical(SubtractOne(dest, ix, same))
  {
    var r, j := SubtractOne(dest, ix, same), Find(dest, KeyOf(ix));
    if j < |dest| && dest[j].scale != ix.scale {
      NonZeroWrap(dest[j].scale - ix.scale);
      forall i | 0 <= i < |r| ensures KeyOf(r[i]) == KeyOf(dest[i]) {}
    } else if j == |dest| {
      NonZeroWrap(-ix.scale);
    }
  }

  lemma NonZeroWrap(x: int)
    requires x != 0 && x < TWO64 && -x < TWO64
    ensures Wrap64(x) != 0
  {
    if x % TWO64 == 0 {
      assert Cong(x, 0, TWO64);
      CongEqual(x, 0, TWO64);
    }
  }

  lemma {:induction false} DifferenceKeepsCanonical(dest: seq<Index>, src: seq<Index>, same: Value -> bool)
    requires Canonical(dest) && Canonical(src) && forall v :: same(v)
    ensures Canonical(Difference(dest, src, same))
  {
    if src != [] {
      var n := |src| - 1;
      assert Canonical(src[..n]) && Int64(src[n].scale) && src[n].scale != 0;
      hide Canonical, SubtractOne;
      DifferenceKeepsCanonical(dest, src[..n], same);
      SubtractOneKeepsCanonical(Difference(dest, src[..n], same), src[n], same);
    }
  }

  /** One variable is one, all others are zero. */
  function Only(key: Key, x: int): Valuation {
    k => if k == key then x else 0
  }

  lemma {:induction false} OnlyValue(s: seq<Index>, i: nat, x: int)
    requires Canonical(s) && i < |s|
    ensures LinearValue(s, Only(KeyOf(s[i]), x)) == s[i].scale * x
  {
    var val := Only(KeyOf(s[i]), x);
    LinearSplit(s, i, val);
    NoneValue(s[..i], KeyOf(s[i]), x);
    NoneValue(s[i + 1..], KeyOf(s[i]), x);
  }

  lemma {:induction false} NoneValue(s: seq<Index>, key: Key, x: int)
    requires forall i :: 0 <= i < |s| ==> KeyOf(s[i]) != key
    ensures LinearValue(s, Only(key, x)) == 0
  {
    if s != [] {
      NoneValue(s[1..], key, x);
      assert s[0].scale * 0 == 0;
    }
  }

  lemma NothingLeft(dest: seq<Index>, src: seq<Index>, same: Value -> bool, val: Valuation)
    requires Difference(dest, src, same) == []
    ensures Cong(LinearValue(dest, val), LinearValue(src, val), TWO64)
  {
    hide Cong, Difference;
    var a, b := LinearValue(dest, val), LinearValue(src, val);
    DifferenceValue(dest, src, same, val);
    CongSym(0, a - b, TWO64);
    CongRefl(b, TWO64);
    CongAdd(a - b, 0, b, b, TWO64);
  }

  lemma SomethingLeft(dest: seq<Index>, src: seq<Index>, same: Value -> bool) returns (val: Valuation)
    requires Canonical(dest) && Canonical(src) && (forall v :: same(v)) && Difference(dest, src, same) != []
    ensures !Cong(LinearValue(dest, val), LinearValue(src, val), TWO64)
  {
    var r := Difference(dest, src, same);
    DifferenceKeepsCanonical(dest, src, same);
    assert r[0].scale != 0 && Int64(r[0].scale);
    val := Only(KeyOf(r[0]), 1);
    OnlyValue(r, 0, 1);
    var a, b, c := LinearValue(dest, val), LinearValue(src, val), r[0].scale;
    assert LinearValue(r, val) == c;
    DifferenceValue(dest, src, same, val);
    hide LinearValue, Difference, Canonical;
    SameWouldCancel(a, b, c);
  }

  lemma SameWouldCancel(a: int, b: int, c: int)
    requires c != 0 && Int64(c) && Cong(c, a - b, TWO64)
    ensures !Cong(a, b, TWO64)
  {
    hide Cong;
    if Cong(a, b, TWO64) {
      CongRefl(b, TWO64);
      CongAdd(a, b, b, b, TWO64);
      CongTrans(c, a - b, 0, TWO64);
      CongEqual(c, 0, TWO64);
    }
  }

  /** Nothing is left exactly when the two lists have the same value for all variables. */
  lemma NothingLeftIff(dest: seq<Index>, src: seq<Index>, same: Value -> bool)
    requires Canonical(dest) && Canonical(src) && forall v :: same(v)
    ensures Difference(dest, src, same) == []
            <==> forall val: Valuation :: Cong(LinearValue(dest, val), LinearValue(src, val), TWO64)
  {
    hide Cong, Difference, LinearValue, Canonical;
    if Difference(dest, src, same) == [] {
      forall val: Valuation ensures Cong(LinearValue(dest, val), LinearValue(src, val), TWO64) {
        NothingLeft(dest, src, same, val);
      }
    } else {
      var val := SomethingLeft(dest, src, same);
    }
  }
}
