/** Cell voltages as the AFE store holds them, and the maximum over the
    physical cell order that the fault check computes. */
module Cells {

  /** A 16-bit unsigned voltage code (uint16_t in the firmware). */
  type u16 = x: int | 0 <= x < 0x1_0000

  /** The AFE configuration: 2 daisy-chained devices with 12 cells each. */
  const NumDevices: nat := 2
  const NumCellsPerDevice: nat := 12
  const NumCells: nat := NumDevices * NumCellsPerDevice

  /** The lookup table covers the first `n` cells and every entry names a slot
      of the voltage array (the C code indexes the arrays without a check). */
  predicate LookupInRange(voltages: seq<u16>, lookup: seq<nat>, n: nat)
  {
    n <= |lookup| && forall i :: 0 <= i < n ==> lookup[i] < |voltages|
  }

  /** The readings in physical cell order: cell i reads voltages[lookup[i]]. */
  function Remapped(voltages: seq<u16>, lookup: seq<nat>, n: nat): seq<u16>
    requires LookupInRange(voltages, lookup, n)
  {
    seq(n, i requires 0 <= i < n => voltages[lookup[i]])
  }

  /** A running maximum that starts at 0, as the firmware's loop keeps it. */
  function SeqMax(s: seq<u16>): (m: u16)
    ensures IsMaxOrZero(s, m)
  {
    if |s| == 0 then 0
    else
      var m := SeqMax(s[..|s| - 1]);
      if s[|s| - 1] > m then s[|s| - 1] else m
  }

  /** `m` is the maximum of `s`, or 0 when `s` is empty or all zero. */
  predicate IsMaxOrZero(s: seq<u16>, m: int)
  {
    (forall i :: 0 <= i < |s| ==> s[i] <= m) && (m == 0 || exists i :: 0 <= i < |s| && s[i] == m)
  }

  /** Appending a reading keeps the characterisation, with the larger of the
      reading and the old maximum. */
  lemma MaxOrZeroSnoc(s: seq<u16>, x: u16, m: int)
    requires IsMaxOrZero(s, m)
    ensures IsMaxOrZero(s + [x], if x > m then x else m)
  {
    var t := s + [x];
    assert t[|s|] == x;
    if m != 0 && x <= m {
      var i :| 0 <= i < |s| && s[i] == m;
      assert t[i] == m;
    }
  }

  /** The characterisation of the maximum has exactly one solution. */
  lemma MaxUnique(s: seq<u16>, m1: int, m2: int)
    requires IsMaxOrZero(s, m1) && IsMaxOrZero(s, m2)
    ensures m1 == m2
  {
    if m1 != 0 {
      var i :| 0 <= i < |s| && s[i] == m1;
      assert m1 <= m2;
    }
    if m2 != 0 {
      var j :| 0 <= j < |s| && s[j] == m2;
      assert m2 <= m1;
    }
  }

  /** The maximum cell voltage over the first `n` cells in physical order. */
  function MaxCellVoltage(voltages: seq<u16>, lookup: seq<nat>, n: nat): (m: u16)
    requires LookupInRange(voltages, lookup, n)
    ensures IsMaxOrZero(Remapped(voltages, lookup, n), m)
  {
    SeqMax(Remapped(voltages, lookup, n))
  }

  /** The firmware's cell loop: a running maximum over
      voltages[lookup[cell]] for every cell, starting from 0. */
  method ScanMaxVoltage(voltages: seq<u16>, lookup: seq<nat>, n: nat) returns (maxVoltage: u16)
    requires LookupInRange(voltages, lookup, n)
    ensures IsMaxOrZero(Remapped(voltages, lookup, n), maxVoltage)
    ensures maxVoltage == MaxCellVoltage(voltages, lookup, n)
  {
    maxVoltage := 0;
    for cell := 0 to n
      invariant IsMaxOrZero(Remapped(voltages, lookup, cell), maxVoltage)
    {
      assert Remapped(voltages, lookup, cell + 1) == Remapped(voltages, lookup, cell) + [voltages[lookup[cell]]];
      MaxOrZeroSnoc(Remapped(voltages, lookup, cell), voltages[lookup[cell]], maxVoltage);
      maxVoltage := if voltages[lookup[cell]] > maxVoltage then voltages[lookup[cell]] else maxVoltage;
    }
    MaxUnique(Remapped(voltages, lookup, n), maxVoltage, MaxCellVoltage(voltages, lookup, n));
  }

  /** The maximum depends only on which readings occur, not on their order. */
  lemma MaxIgnoresOrder(a: seq<u16>, b: seq<u16>)
    requires multiset(a) == multiset(b)
    ensures SeqMax(a) == SeqMax(b)
  {
    forall i | 0 <= i < |a| ensures a[i] <= SeqMax(b) {
      assert a[i] in multiset(b);
      var j :| 0 <= j < |b| && b[j] == a[i];
    }
    forall j | 0 <= j < |b| ensures b[j] <= SeqMax(a) {
      assert b[j] in multiset(a);
      var i :| 0 <= i < |a| && a[i] == b[j];
    }
    if SeqMax(a) != 0 {
      var i :| 0 <= i < |a| && a[i] == SeqMax(a);
      assert SeqMax(a) <= SeqMax(b);
    }
    if SeqMax(b) != 0 {
      var j :| 0 <= j < |b| && b[j] == SeqMax(b);
      assert SeqMax(b) <= SeqMax(a);
    }
  }

  /** When the lookup permutes the first `n` slots, the remapped maximum is the
      maximum of the raw transfer order over those slots. */
  lemma PermutingLookupKeepsMax(voltages: seq<u16>, lookup: seq<nat>, n: nat)
    requires n <= |voltages| && n <= |lookup|
    requires forall i :: 0 <= i < n ==> lookup[i] < n
    requires forall j :: 0 <= j < n ==> j in lookup[..n]
    ensures LookupInRange(voltages, lookup, n)
    ensures MaxCellVoltage(voltages, lookup, n) == SeqMax(voltages[..n])
  {
    var m := MaxCellVoltage(voltages, lookup, n);
    var raw := voltages[..n];
    var cells := Remapped(voltages, lookup, n);
    forall j | 0 <= j < n ensures raw[j] <= m {
      assert j in lookup[..n];
      var i :| 0 <= i < n && lookup[..n][i] == j;
      assert cells[i] == raw[j] && cells[i] <= m;
    }
    if m != 0 {
      var i :| 0 <= i < n && cells[i] == m;
      assert raw[lookup[i]] == m;
    }
    MaxUnique(raw, m, SeqMax(raw));
  }

  /** The lookup matters: with a lookup that skips a slot, the reported maximum
      differs from the maximum over the raw transfer order. */
  lemma RemappedMaxDiffersFromRaw()
    ensures MaxCellVoltage([1, 9, 5], [0, 2], 2) == 5
    ensures SeqMax([1, 9, 5][..2]) == 9
  {
    var v: seq<u16> := [1, 9, 5];
    var r := Remapped(v, [0, 2], 2);
    assert r == [1, 5];
    assert r[..1] == [1];
    assert [1, 9, 5][..2] == [1, 9];
    assert [1, 9][..1] == [1];
  }
}
