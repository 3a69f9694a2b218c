/**
 * The EAN-8 symbol character tables `L_CODE` (number set A, left half) and
 * `R_CODE` (number set C, right half), and the reading of an integer as a
 * row of modules, most significant bit first, which is how the tables'
 * binary literals are written.
 */
module EanPatterns {
  import opened Base

  /** Number of modules in one symbol character. */
  const EAN8_CODE_LENGTH: nat := 7

  function Pow2(n: nat): (r: nat)
    ensures r >= 1
  {
    if n == 0 then 1 else 2 * Pow2(n - 1)
  }

  /** The `n` low-order bits of `v` as modules, most significant first. */
  function Modules(v: nat, n: nat): (r: seq<Bit>)
    ensures |r| == n
  {
    if n == 0 then [] else Modules(v / 2, n - 1) + [v % 2]
  }

  /** The integer a row of modules spells, most significant first. */
  function Value(bits: seq<Bit>): nat
  {
    if bits == [] then 0 else 2 * Value(bits[..|bits| - 1]) + bits[|bits| - 1]
  }

  /** Number of bar modules (1-bits). */
  function Ones(bits: seq<Bit>): (r: nat)
    ensures r <= |bits|
  {
    if bits == [] then 0 else bits[0] + Ones(bits[1..])
  }

  lemma {:induction false} ValueOfModules(v: nat, n: nat)
    requires v < Pow2(n)
    ensures Value(Modules(v, n)) == v
  {
    if n > 0 {
      var m := Modules(v, n);
      assert m[..n - 1] == Modules(v / 2, n - 1);
      ValueOfModules(v / 2, n - 1);
    }
  }

  lemma {:induction false} ModulesOfValue(bits: seq<Bit>)
    ensures Value(bits) < Pow2(|bits|)
    ensures Modules(Value(bits), |bits|) == bits
  {
    if bits != [] {
      var init, last := bits[..|bits| - 1], bits[|bits| - 1];
      ModulesOfValue(init);
      var v := Value(bits);
      assert v / 2 == Value(init) && v % 2 == last;
      assert bits == init + [last];
    }
  }

  /** Two values below 2^n with the same module row are equal. */
  lemma ModulesInjective(a: nat, b: nat, n: nat)
    requires a < Pow2(n) && b < Pow2(n)
    requires Modules(a, n) == Modules(b, n)
    ensures a == b
  {
    ValueOfModules(a, n);
    ValueOfModules(b, n);
  }

  /** Flipping every module of a row takes its value v to 2^n - 1 - v. */
  lemma {:induction false} ValueComplement(a: seq<Bit>, b: seq<Bit>)
    requires |a| == |b|
    requires forall i :: 0 <= i < |a| ==> b[i] == 1 - a[i]
    ensures Value(b) == Pow2(|a|) - 1 - Value(a)
  {
    if a != [] {
      var n := |a| - 1;
      ValueComplement(a[..n], b[..n]);
    }
  }

  /** A row whose modules are all flipped has the complementary number of bars. */
  lemma {:induction false} OnesComplement(a: seq<Bit>, b: seq<Bit>)
    requires |a| == |b|
    requires forall i :: 0 <= i < |a| ==> b[i] == 1 - a[i]
    ensures Ones(b) == |a| - Ones(a)
  {
    if a != [] {
      OnesComplement(a[1..], b[1..]);
    }
  }

  lemma OnesOfSeven(m: seq<Bit>)
    requires |m| == 7
    ensures Ones(m) == m[0] as int + m[1] + m[2] + m[3] + m[4] + m[5] + m[6]
  {
    var t := m[1..];
    assert Ones(t) == t[0] as int + Ones(t[1..]);
    assert Ones(t[1..]) == t[1] as int + Ones(t[2..]) by { assert t[1..][1..] == t[2..]; }
    assert Ones(t[2..]) == t[2] as int + Ones(t[3..]) by { assert t[2..][1..] == t[3..]; }
    assert Ones(t[3..]) == t[3] as int + Ones(t[4..]) by { assert t[3..][1..] == t[4..]; }
    assert Ones(t[4..]) == t[4] as int + Ones(t[5..]) by { assert t[4..][1..] == t[5..]; }
    assert Ones(t[5..]) == t[5] as int + Ones(t[6..]) by { assert t[5..][1..] == t[6..]; }
  }

  /** The first module of a row decides whether its value reaches 2^(n-1). */
  lemma {:induction false} ValueLeadingModule(m: seq<Bit>)
    requires |m| >= 1
    ensures m[0] == 0 ==> Value(m) < Pow2(|m| - 1)
    ensures m[0] == 1 ==> Pow2(|m| - 1) <= Value(m) < Pow2(|m|)
  {
    var n := |m| - 1;
    if n == 0 {
      assert Value(m) == 2 * Value([]) + m[0];
    } else {
      var init := m[..n];
      ValueLeadingModule(init);
      assert init[0] == m[0];
      assert Value(m) == 2 * Value(init) + m[n];
      assert Pow2(n + 1) == 2 * Pow2(n) && Pow2(n) == 2 * Pow2(n - 1);
    }
  }

  /** Number set A, digits 0-9, as the source's binary literals spell them. */
  const L_PATTERNS: seq<seq<Bit>> := [
    [0, 0, 0, 1, 1, 0, 1], [0, 0, 1, 1, 0, 0, 1], [0, 0, 1, 0, 0, 1, 1], [0, 1, 1, 1, 1, 0, 1], [0, 1, 0, 0, 0, 1, 1],
    [0, 1, 1, 0, 0, 0, 1], [0, 1, 0, 1, 1, 1, 1], [0, 1, 1, 1, 0, 1, 1], [0, 1, 1, 0, 1, 1, 1], [0, 0, 0, 1, 0, 1, 1]]

  /** Number set C, digits 0-9, as the source's binary literals spell them. */
  const R_PATTERNS: seq<seq<Bit>> := [
    [1, 1, 1, 0, 0, 1, 0], [1, 1, 0, 0, 1, 1, 0], [1, 1, 0, 1, 1, 0, 0], [1, 0, 0, 0, 0, 1, 0], [1, 0, 1, 1, 1, 0, 0],
    [1, 0, 0, 1, 1, 1, 0], [1, 0, 1, 0, 0, 0, 0], [1, 0, 0, 0, 1, 0, 0], [1, 0, 0, 1, 0, 0, 0], [1, 1, 1, 0, 1, 0, 0]]

  predicate IsDigit(d: int) { 0 <= d < 10 }

  /** `L_CODE`: the integer each set-A literal denotes. */
  const L_CODE: seq<nat> := [
    Value(L_PATTERNS[0]), Value(L_PATTERNS[1]), Value(L_PATTERNS[2]), Value(L_PATTERNS[3]), Value(L_PATTERNS[4]),
    Value(L_PATTERNS[5]), Value(L_PATTERNS[6]), Value(L_PATTERNS[7]), Value(L_PATTERNS[8]), Value(L_PATTERNS[9])]

  /** `R_CODE`: the integer each set-C literal denotes. */
  const R_CODE: seq<nat> := [
    Value(R_PATTERNS[0]), Value(R_PATTERNS[1]), Value(R_PATTERNS[2]), Value(R_PATTERNS[3]), Value(R_PATTERNS[4]),
    Value(R_PATTERNS[5]), Value(R_PATTERNS[6]), Value(R_PATTERNS[7]), Value(R_PATTERNS[8]), Value(R_PATTERNS[9])]

  /** Each table has one seven-bit entry per digit, and its modules are the literal's. */
  lemma TableEntry(d: int)
    requires IsDigit(d)
    ensures |L_CODE| == 10 && L_CODE[d] < 128 && Modules(L_CODE[d], 7) == L_PATTERNS[d]
    ensures |R_CODE| == 10 && R_CODE[d] < 128 && Modules(R_CODE[d], 7) == R_PATTERNS[d]
  {
    assert |L_PATTERNS[d]| == 7 && |R_PATTERNS[d]| == 7;
    ModulesOfValue(L_PATTERNS[d]);
    ModulesOfValue(R_PATTERNS[d]);
  }

  /** The set-A literals start with a space, end with a bar and have an odd number of bars. */
  lemma LPatternShape(d: int)
    requires IsDigit(d)
    ensures |L_PATTERNS[d]| == 7 && L_PATTERNS[d][0] == 0 && L_PATTERNS[d][6] == 1
    ensures Ones(L_PATTERNS[d]) % 2 == 1
  {
    OnesOfSeven(L_PATTERNS[d]);
    if d < 5 {
      LowPatternBars(d);
    } else {
      HighPatternBars(d);
    }
  }

  /** Bar counts of the set-A literals for digits 0 to 4. */
  lemma LowPatternBars(d: int)
    requires 0 <= d < 5
    ensures Ones(L_PATTERNS[d]) == if d == 3 then 5 else 3
  {
    OnesOfSeven(L_PATTERNS[d]);
    if d == 0 { assert Ones(L_PATTERNS[0]) == 3; }
    else if d == 1 { assert Ones(L_PATTERNS[1]) == 3; }
    else if d == 2 { assert Ones(L_PATTERNS[2]) == 3; }
    else if d == 3 { assert Ones(L_PATTERNS[3]) == 5; }
    else { assert Ones(L_PATTERNS[4]) == 3; }
  }

  /** Bar counts of the set-A literals for digits 5 to 9. */
  lemma HighPatternBars(d: int)
    requires 5 <= d < 10
    ensures Ones(L_PATTERNS[d]) == if d == 5 || d == 9 then 3 else 5
  {
    OnesOfSeven(L_PATTERNS[d]);
    if d == 5 { assert Ones(L_PATTERNS[5]) == 3; }
    else if d == 6 { assert Ones(L_PATTERNS[6]) == 5; }
    else if d == 7 { assert Ones(L_PATTERNS[7]) == 5; }
    else if d == 8 { assert Ones(L_PATTERNS[8]) == 5; }
    else { assert Ones(L_PATTERNS[9]) == 3; }
  }

  /**
   * Every set-A character starts with a space module, ends with a bar module
   * and has an odd number of bars.
   */
  lemma LCodeShape(d: int)
    requires IsDigit(d)
    ensures L_CODE[d] < 64
    ensures Modules(L_CODE[d], 7)[0] == 0 && Modules(L_CODE[d], 7)[6] == 1
    ensures Ones(Modules(L_CODE[d], 7)) % 2 == 1
  {
    TableEntry(d);
    LPatternShape(d);
    ValueLeadingModule(L_PATTERNS[d]);
    assert Pow2(6) == 64;
  }

  /** The set-C literal of each digit flips every module of its set-A literal. */
  lemma PatternsComplement(d: int)
    requires IsDigit(d)
    ensures |L_PATTERNS[d]| == 7 && |R_PATTERNS[d]| == 7
    ensures forall i :: 0 <= i < 7 ==> R_PATTERNS[d][i] == 1 - L_PATTERNS[d][i]
  {
    if d == 0 { assert forall i :: 0 <= i < 7 ==> R_PATTERNS[0][i] == 1 - L_PATTERNS[0][i]; }
    else if d == 1 { assert forall i :: 0 <= i < 7 ==> R_PATTERNS[1][i] == 1 - L_PATTERNS[1][i]; }
    else if d == 2 { assert forall i :: 0 <= i < 7 ==> R_PATTERNS[2][i] == 1 - L_PATTERNS[2][i]; }
    else if d == 3 { assert forall i :: 0 <= i < 7 ==> R_PATTERNS[3][i] == 1 - L_PATTERNS[3][i]; }
    else if d == 4 { assert forall i :: 0 <= i < 7 ==> R_PATTERNS[4][i] == 1 - L_PATTERNS[4][i]; }
    else if d == 5 { assert forall i :: 0 <= i < 7 ==> R_PATTERNS[5][i] == 1 - L_PATTERNS[5][i]; }
    else if d == 6 { assert forall i :: 0 <= i < 7 ==> R_PATTERNS[6][i] == 1 - L_PATTERNS[6][i]; }
    else if d == 7 { assert forall i :: 0 <= i < 7 ==> R_PATTERNS[7][i] == 1 - L_PATTERNS[7][i]; }
    else if d == 8 { assert forall i :: 0 <= i < 7 ==> R_PATTERNS[8][i] == 1 - L_PATTERNS[8][i]; }
    else { assert forall i :: 0 <= i < 7 ==> R_PATTERNS[9][i] == 1 - L_PATTERNS[9][i]; }
  }

  /** Each set-C character is the seven-bit complement of the set-A character of the same digit. */
  lemma RCodeComplement(d: int)
    requires IsDigit(d)
    ensures L_CODE[d] + R_CODE[d] == 127
    ensures forall i :: 0 <= i < 7 ==> Modules(R_CODE[d], 7)[i] == 1 - Modules(L_CODE[d], 7)[i]
  {
    TableEntry(d);
    PatternsComplement(d);
    assert Pow2(7) == 128;
    ValueComplement(L_PATTERNS[d], R_PATTERNS[d]);
  }

  /**
   * Every set-C character starts with a bar module, ends with a space module
   * and has an even number of bars, as a consequence of the complement
   * relation with set A.
   */
  lemma RCodeShape(d: int)
    requires IsDigit(d)
    ensures 64 <= R_CODE[d] < 128
    ensures Modules(R_CODE[d], 7)[0] == 1 && Modules(R_CODE[d], 7)[6] == 0
    ensures Ones(Modules(R_CODE[d], 7)) % 2 == 0
  {
    LCodeShape(d);
    RCodeComplement(d);
    OnesComplement(Modules(L_CODE[d], 7), Modules(R_CODE[d], 7));
  }

  /** Within set A no two digits share a character, so an exact match names at most one digit. */
  lemma LCodeDistinct(i: int, j: int)
    requires IsDigit(i) && IsDigit(j)
    requires L_CODE[i] == L_CODE[j]
    ensures i == j
  {
    TableEntry(i);
    TableEntry(j);
  }

  /** Within set C no two digits share a character; this follows from set A through the complement. */
  lemma RCodeDistinct(i: int, j: int)
    requires IsDigit(i) && IsDigit(j)
    requires R_CODE[i] == R_CODE[j]
    ensures i == j
  {
    RCodeComplement(i);
    RCodeComplement(j);
    LCodeDistinct(i, j);
  }

  /** No character belongs to both sets: they differ in their first module. */
  lemma TablesDisjoint(i: int, j: int)
    requires IsDigit(i) && IsDigit(j)
    ensures L_CODE[i] != R_CODE[j]
  {
    LCodeShape(i);
    RCodeShape(j);
  }
}
