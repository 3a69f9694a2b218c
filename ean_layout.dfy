/**
 * The EAN-8 symbol structure declared in `ean_patterns.h`: the guard
 * patterns, the 67-module layout of a symbol (start guard, four set-A
 * characters, middle guard, four set-C characters, end guard) and the
 * documented contract of `is_valid_structure`.
 */
module EanLayout {
  import opened Base
  import opened EanPatterns

  /** The two `SegmentGuard` enumerators, 101 and 01010 in binary. */
  const EDGE_GUARD: nat := 5
  const MIDDLE_GUARD: nat := 10
  const EDGE_GUARD_LENGTH: nat := 3
  const MIDDLE_GUARD_LENGTH: nat := 5

  /** Modules of one half: four symbol characters. */
  const EAN8_SET_LENGTH: nat := 4 * EAN8_CODE_LENGTH

  /** Modules of a whole symbol. */
  const EAN8_LENGTH: nat :=
    EDGE_GUARD_LENGTH + EAN8_SET_LENGTH + MIDDLE_GUARD_LENGTH + EAN8_SET_LENGTH + EDGE_GUARD_LENGTH

  /** The guards as modules: bar-space-bar, and space-bar-space-bar-space. */
  const EDGE_GUARD_MODULES: seq<Bit> := [1, 0, 1]
  const MIDDLE_GUARD_MODULES: seq<Bit> := [0, 1, 0, 1, 0]

  /** The guard enumerators spell the guard modules; a symbol has 67 modules. */
  lemma GuardPatterns()
    ensures Modules(EDGE_GUARD, EDGE_GUARD_LENGTH) == EDGE_GUARD_MODULES
    ensures Modules(MIDDLE_GUARD, MIDDLE_GUARD_LENGTH) == MIDDLE_GUARD_MODULES
    ensures EAN8_LENGTH == 67
  {
    assert Modules(EDGE_GUARD, 3) == Modules(2, 2) + [1];
    assert Modules(MIDDLE_GUARD, 5) == Modules(5, 4) + [0];
  }

  /** The eleven regions of a symbol, in order. */
  datatype Zone = Start | Left(k: nat) | Middle | Right(k: nat) | End

  predicate ValidZone(z: Zone)
  {
    (z.Left? || z.Right?) ==> z.k < 4
  }

  predicate IsGuard(z: Zone)
  {
    z.Start? || z.Middle? || z.End?
  }

  /** Offset of a region's first module from the start of the symbol. */
  function ZoneStart(z: Zone): nat
  {
    match z
    case Start => 0
    case Left(k) => EDGE_GUARD_LENGTH + k * EAN8_CODE_LENGTH
    case Middle => EDGE_GUARD_LENGTH + EAN8_SET_LENGTH
    case Right(k) => EDGE_GUARD_LENGTH + EAN8_SET_LENGTH + MIDDLE_GUARD_LENGTH + k * EAN8_CODE_LENGTH
    case End => EAN8_LENGTH - EDGE_GUARD_LENGTH
  }

  function ZoneWidth(z: Zone): nat
  {
    match z
    case Start => EDGE_GUARD_LENGTH
    case Middle => MIDDLE_GUARD_LENGTH
    case End => EDGE_GUARD_LENGTH
    case _ => EAN8_CODE_LENGTH
  }

  predicate InZone(j: int, z: Zone)
  {
    ZoneStart(z) <= j < ZoneStart(z) + ZoneWidth(z)
  }

  /** The guard pattern a guard region must hold. */
  function GuardPattern(z: Zone): (g: seq<Bit>)
    ensures |g| == (if z.Middle? then MIDDLE_GUARD_LENGTH else EDGE_GUARD_LENGTH)
  {
    if z.Middle? then MIDDLE_GUARD_MODULES else EDGE_GUARD_MODULES
  }

  /** Every module of a symbol lies in a region: left digit k covers [3+7k, 10+7k), right digit k covers [36+7k, 43+7k). */
  function ZoneOf(j: nat): (z: Zone)
    requires j < EAN8_LENGTH
    ensures ValidZone(z) && InZone(j, z)
  {
    if j < 3 then Start
    else if j < 31 then Left((j - 3) / 7)
    else if j < 36 then Middle
    else if j < 64 then Right((j - 36) / 7)
    else End
  }

  /** Regions never overlap, so together with ZoneOf they tile the 67 modules. */
  lemma ZonesDisjoint(z1: Zone, z2: Zone, j: int)
    requires ValidZone(z1) && ValidZone(z2)
    requires InZone(j, z1) && InZone(j, z2)
    ensures z1 == z2
  {
  }

  lemma ZoneWithinSymbol(z: Zone)
    requires ValidZone(z)
    ensures ZoneStart(z) + ZoneWidth(z) <= EAN8_LENGTH
  {
  }

  /** The module a symbol must hold at a guard offset. */
  function GuardModule(j: nat): Bit
    requires j < EAN8_LENGTH && IsGuard(ZoneOf(j))
  {
    var z := ZoneOf(j);
    GuardPattern(z)[j - ZoneStart(z)]
  }

  /**
   * `is_valid_structure(data, length, index)` as its documentation states
   * it, with `length == |data|`: the window `data[index .. index + 67)` lies
   * in the bitstream and holds the start, middle and end guards.
   */
  predicate IsValidStructure(data: seq<Bit>, index: nat)
    ensures IsValidStructure(data, index) ==>
      index + EAN8_LENGTH <= |data| && data[index] == 1 && data[index + EAN8_LENGTH - 1] == 1
  {
    index + EAN8_LENGTH <= |data|
    && data[index + ZoneStart(Start) .. index + ZoneStart(Start) + EDGE_GUARD_LENGTH] == EDGE_GUARD_MODULES
    && data[index + ZoneStart(Middle) .. index + ZoneStart(Middle) + MIDDLE_GUARD_LENGTH] == MIDDLE_GUARD_MODULES
    && data[index + ZoneStart(End) .. index + ZoneStart(End) + EDGE_GUARD_LENGTH] == EDGE_GUARD_MODULES
  }

  /** A guard region of the window matches exactly when each of its modules does. */
  lemma GuardZoneByModules(data: seq<Bit>, index: nat, z: Zone)
    requires IsGuard(z) && index + EAN8_LENGTH <= |data|
    ensures data[index + ZoneStart(z) .. index + ZoneStart(z) + ZoneWidth(z)] == GuardPattern(z) <==>
      forall j :: ZoneStart(z) <= j < ZoneStart(z) + ZoneWidth(z) ==> data[index + j] == GuardModule(j)
  {
    var w := data[index + ZoneStart(z) .. index + ZoneStart(z) + ZoneWidth(z)];
    forall j | ZoneStart(z) <= j < ZoneStart(z) + ZoneWidth(z)
      ensures ZoneOf(j) == z && w[j - ZoneStart(z)] == data[index + j]
    {
      ZonesDisjoint(ZoneOf(j), z, j);
    }
    assert |w| == |GuardPattern(z)|;
    if forall j :: ZoneStart(z) <= j < ZoneStart(z) + ZoneWidth(z) ==> data[index + j] == GuardModule(j) {
      forall i | 0 <= i < |w| ensures w[i] == GuardPattern(z)[i] {
        var j := ZoneStart(z) + i;
        assert ZoneOf(j) == z && w[i] == data[index + j];
        assert data[index + j] == GuardModule(j);
      }
    }
  }

  /** The verdict, module by module: only the eleven guard modules of the window are inspected. */
  lemma StructureByGuardModules(data: seq<Bit>, index: nat)
    ensures IsValidStructure(data, index) <==>
      index + EAN8_LENGTH <= |data| &&
      forall j :: 0 <= j < EAN8_LENGTH && IsGuard(ZoneOf(j)) ==> data[index + j] == GuardModule(j)
  {
    if index + EAN8_LENGTH <= |data| {
      GuardZoneByModules(data, index, Start);
      GuardZoneByModules(data, index, Middle);
      GuardZoneByModules(data, index, End);
      forall j | 0 <= j < EAN8_LENGTH && IsGuard(ZoneOf(j))
        ensures InZone(j, Start) || InZone(j, Middle) || InZone(j, End)
      {
      }
    }
  }

  /** Two bitstreams of one length that agree on the guard modules of the window get the same verdict. */
  lemma OnlyGuardsDecide(a: seq<Bit>, b: seq<Bit>, index: nat)
    requires |a| == |b|
    requires forall j :: 0 <= j < EAN8_LENGTH && index + j < |a| && IsGuard(ZoneOf(j)) ==> a[index + j] == b[index + j]
    ensures IsValidStructure(a, index) == IsValidStructure(b, index)
  {
    StructureByGuardModules(a, index);
    StructureByGuardModules(b, index);
  }

  /**
   * Rewriting one module that is a digit module of the window, or lies
   * outside the window, leaves the verdict unchanged.
   */
  lemma NonGuardModuleIrrelevant(data: seq<Bit>, index: nat, p: nat, b: Bit)
    requires p < |data|
    requires p < index || index + EAN8_LENGTH <= p || !IsGuard(ZoneOf(p - index))
    ensures IsValidStructure(data[p := b], index) == IsValidStructure(data, index)
  {
    OnlyGuardsDecide(data[p := b], data, index);
  }

  predicate AllDigits(ds: seq<int>)
  {
    forall i :: 0 <= i < |ds| ==> IsDigit(ds[i])
  }

  /** The modules of a run of symbol characters drawn from one table. */
  function Characters(ds: seq<int>, table: seq<nat>): (r: seq<Bit>)
    requires AllDigits(ds) && |table| == 10
    ensures |r| == EAN8_CODE_LENGTH * |ds|
  {
    if ds == [] then []
    else Characters(ds[..|ds| - 1], table) + Modules(table[ds[|ds| - 1]], EAN8_CODE_LENGTH)
  }

  lemma {:induction false} CharacterWindow(ds: seq<int>, table: seq<nat>, k: nat)
    requires AllDigits(ds) && |table| == 10 && k < |ds|
    ensures Characters(ds, table)[7 * k .. 7 * k + 7] == Modules(table[ds[k]], 7)
  {
    var n := |ds| - 1;
    var init := ds[..n];
    var c := Characters(ds, table);
    assert c == Characters(init, table) + Modules(table[ds[n]], 7);
    if k < n {
      CharacterWindow(init, table, k);
      assert c[7 * k .. 7 * k + 7] == Characters(init, table)[7 * k .. 7 * k + 7];
    } else {
      assert c[7 * k .. 7 * k + 7] == c[7 * n ..];
    }
  }

  /** The 67 modules of the symbol for four set-A digits followed by four set-C digits. */
  function Symbol(left: seq<int>, right: seq<int>): (s: seq<Bit>)
    requires |left| == 4 && |right| == 4 && AllDigits(left) && AllDigits(right)
    ensures |s| == EAN8_LENGTH
  {
    EDGE_GUARD_MODULES + Characters(left, L_CODE) + MIDDLE_GUARD_MODULES + Characters(right, R_CODE) + EDGE_GUARD_MODULES
  }

  /** The parts a symbol is made of, at their offsets. */
  lemma SymbolParts(left: seq<int>, right: seq<int>)
    requires |left| == 4 && |right| == 4 && AllDigits(left) && AllDigits(right)
    ensures Symbol(left, right)[0 .. 3] == EDGE_GUARD_MODULES
    ensures Symbol(left, right)[3 .. 31] == Characters(left, L_CODE)
    ensures Symbol(left, right)[31 .. 36] == MIDDLE_GUARD_MODULES
    ensures Symbol(left, right)[36 .. 64] == Characters(right, R_CODE)
    ensures Symbol(left, right)[64 .. 67] == EDGE_GUARD_MODULES
  {
    var l, r := Characters(left, L_CODE), Characters(right, R_CODE);
    assert |l| == 28 && |r| == 28;
    var s := EDGE_GUARD_MODULES + l + MIDDLE_GUARD_MODULES + r + EDGE_GUARD_MODULES;
    assert s == Symbol(left, right);
    assert s[3 .. 31] == l;
    assert s[36 .. 64] == r;
  }

  /** Each region of a symbol holds its guard or the character of its digit. */
  lemma SymbolZones(left: seq<int>, right: seq<int>, z: Zone)
    requires |left| == 4 && |right| == 4 && AllDigits(left) && AllDigits(right)
    requires ValidZone(z)
    ensures Symbol(left, right)[ZoneStart(z) .. ZoneStart(z) + ZoneWidth(z)] ==
      match z
      case Left(k) => Modules(L_CODE[left[k]], 7)
      case Right(k) => Modules(R_CODE[right[k]], 7)
      case _ => GuardPattern(z)
  {
    var s := Symbol(left, right);
    SymbolParts(left, right);
    match z
    case Left(k) =>
      SliceOfSlice(s, 3, 31, 7 * k, 7 * k + 7);
      CharacterWindow(left, L_CODE, k);
    case Right(k) =>
      SliceOfSlice(s, 36, 64, 7 * k, 7 * k + 7);
      CharacterWindow(right, R_CODE, k);
    case _ =>
  }

  lemma SliceOfSlice(s: seq<Bit>, a: nat, b: nat, i: nat, j: nat)
    requires a <= b <= |s| && i <= j <= b - a
    ensures s[a .. b][i .. j] == s[a + i .. a + j]
  {
    assert forall t :: 0 <= t < j - i ==> s[a .. b][i .. j][t] == s[a + i + t];
  }

  /** A rendered symbol embedded anywhere in a bitstream is recognised at its own offset. */
  lemma SymbolIsValidStructure(before: seq<Bit>, left: seq<int>, right: seq<int>, after: seq<Bit>)
    requires |left| == 4 && |right| == 4 && AllDigits(left) && AllDigits(right)
    ensures IsValidStructure(before + Symbol(left, right) + after, |before|)
  {
    var s := Symbol(left, right);
    var data := before + s + after;
    var i := |before|;
    forall z | IsGuard(z)
      ensures data[i + ZoneStart(z) .. i + ZoneStart(z) + ZoneWidth(z)] == GuardPattern(z)
    {
      SymbolZones(left, right, z);
      assert data[i + ZoneStart(z) .. i + ZoneStart(z) + ZoneWidth(z)] == s[ZoneStart(z) .. ZoneStart(z) + ZoneWidth(z)];
    }
    assert data[i + ZoneStart(Start) .. i + ZoneStart(Start) + ZoneWidth(Start)] == GuardPattern(Start);
    assert data[i + ZoneStart(Middle) .. i + ZoneStart(Middle) + ZoneWidth(Middle)] == GuardPattern(Middle);
    assert data[i + ZoneStart(End) .. i + ZoneStart(End) + ZoneWidth(End)] == GuardPattern(End);
  }

  /**
   * Distinct digit strings render to distinct symbols: each character window
   * determines its digit, because the entries of each table are distinct.
   */
  lemma SymbolDeterminesDigits(l1: seq<int>, r1: seq<int>, l2: seq<int>, r2: seq<int>)
    requires |l1| == 4 && |r1| == 4 && AllDigits(l1) && AllDigits(r1)
    requires |l2| == 4 && |r2| == 4 && AllDigits(l2) && AllDigits(r2)
    requires Symbol(l1, r1) == Symbol(l2, r2)
    ensures l1 == l2 && r1 == r2
  {
    forall k | 0 <= k < 4 ensures l1[k] == l2[k] && r1[k] == r2[k] {
      LeftDigitDetermined(l1, r1, l2, r2, k);
      RightDigitDetermined(l1, r1, l2, r2, k);
    }
  }

  /** Left character window `k` of a symbol determines left digit `k`. */
  lemma LeftDigitDetermined(l1: seq<int>, r1: seq<int>, l2: seq<int>, r2: seq<int>, k: nat)
    requires |l1| == 4 && |r1| == 4 && AllDigits(l1) && AllDigits(r1)
    requires |l2| == 4 && |r2| == 4 && AllDigits(l2) && AllDigits(r2)
    requires Symbol(l1, r1) == Symbol(l2, r2) && k < 4
    ensures l1[k] == l2[k]
  {
    assert Pow2(7) == 128;
    SymbolZones(l1, r1, Left(k));
    SymbolZones(l2, r2, Left(k));
    LCodeShape(l1[k]);
    LCodeShape(l2[k]);
    ModulesInjective(L_CODE[l1[k]], L_CODE[l2[k]], 7);
    LCodeDistinct(l1[k], l2[k]);
  }

  /** Right character window `k` of a symbol determines right digit `k`. */
  lemma RightDigitDetermined(l1: seq<int>, r1: seq<int>, l2: seq<int>, r2: seq<int>, k: nat)
    requires |l1| == 4 && |r1| == 4 && AllDigits(l1) && AllDigits(r1)
    requires |l2| == 4 && |r2| == 4 && AllDigits(l2) && AllDigits(r2)
    requires Symbol(l1, r1) == Symbol(l2, r2) && k < 4
    ensures r1[k] == r2[k]
  {
    assert Pow2(7) == 128;
    SymbolZones(l1, r1, Right(k));
    SymbolZones(l2, r2, Right(k));
    RCodeShape(r1[k]);
    RCodeShape(r2[k]);
    ModulesInjective(R_CODE[r1[k]], R_CODE[r2[k]], 7);
    RCodeDistinct(r1[k], r2[k]);
  }
}
