/**
 The inode's block-pointer map: 12 direct pointers, one single-indirect table,
 and one double-indirect table of tables.
 */
module Ext2Pointers {
  import opened Arith
  import opened Bytes
  import opened Ext2Volume

  /** The part of `struct ext2_inode` the block map and the file layer use. */
  class Inode {
    var size: nat
    var block: seq<word>

    constructor (size: nat, block: seq<word>)
      ensures this.size == size && this.block == block
    {
      this.size, this.block := size, block;
    }
  }

  function Limit(p: nat): nat { 12 + p + p * p }

  /** Slot of logical index j in the double-indirect table. */
  function First(p: nat, j: nat): nat
    requires p > 0 && j >= 12 + p
  {
    (j - 12 - p) / p
  }

  /** Slot of logical index j in its second-level table. */
  function Second(p: nat, j: nat): nat
    requires p > 0 && j >= 12 + p
  {
    (j - 12 - p) % p
  }

  lemma Slots(p: nat, j: nat)
    requires p > 0 && j >= 12 + p
    ensures Second(p, j) < p && j == 12 + p + First(p, j) * p + Second(p, j)
    ensures First(p, j) < p <==> j < Limit(p)
  {
    DivMod(j - 12 - p, p);
    if First(p, j) < p {
      MulMonotone(First(p, j) + 1, p, p);
    } else {
      MulMonotone(p, First(p, j), p);
    }
  }

  /** Indices share a second-level table exactly while they stay within its p slots. */
  lemma SameTable(p: nat, i: nat, j: nat)
    requires p > 0 && i >= 12 + p && j >= 12 + p
    ensures First(p, i) == First(p, j) <==> i <= j + Second(p, i) < i + p
    ensures First(p, i) == First(p, j) ==> Second(p, j) == Second(p, i) + (j - i)
  {
    Slots(p, i);
    Slots(p, j);
    if First(p, i) < First(p, j) {
      MulMonotone(First(p, i) + 1, First(p, j), p);
    } else if First(p, j) < First(p, i) {
      MulMonotone(First(p, j) + 1, First(p, i), p);
    }
  }

  function Entry(disk: seq<Block>, t: nat, k: nat): word {
    if t < |disk| && 4 * k + 4 <= |disk[t]| then WordAt(disk[t], k) else 0
  }

  /** The second-level table serving logical index j, or 0. */
  function SecondTable(p: nat, disk: seq<Block>, ib: seq<word>, j: nat): word
    requires p > 0 && j >= 12 + p && |ib| == 15
  {
    if ib[13] == 0 then 0 else Entry(disk, ib[13], First(p, j))
  }

  /** The abstract map: the block that logical index j points to, 0 when none. */
  function Ptr(p: nat, disk: seq<Block>, ib: seq<word>, j: nat): word
    requires p > 0 && |ib| == 15
  {
    if j < 12 then ib[j]
    else if j < 12 + p then
      if ib[12] == 0 then 0 else Entry(disk, ib[12], j - 12)
    else if j < Limit(p) && SecondTable(p, disk, ib, j) != 0 then
      Entry(disk, SecondTable(p, disk, ib, j), Second(p, j))
    else 0
  }

  /** Is there a table slot for logical index j? */
  predicate Mapped(p: nat, disk: seq<Block>, ib: seq<word>, j: nat)
    requires p > 0 && |ib| == 15
  {
    || j < 12
    || (j < 12 + p && ib[12] != 0)
    || (12 + p <= j < Limit(p) && SecondTable(p, disk, ib, j) != 0)
  }

  /** Tables to be allocated before logical index j of the double-indirect range has a slot. */
  function MissingDouble(p: nat, disk: seq<Block>, ib: seq<word>, j: nat): nat
    requires p > 0 && j >= 12 + p && |ib| == 15
  {
    if ib[13] == 0 then 2 else if SecondTable(p, disk, ib, j) == 0 then 1 else 0
  }

  /** Tables to be allocated before count indices from idx on, within the reach of one call, have slots. */
  function Missing(p: nat, disk: seq<Block>, ib: seq<word>, idx: nat, count: nat): nat
    requires p > 0 && |ib| == 15
  {
    (if idx < 12 + p && idx + count > 12 && count > 0 && ib[12] == 0 then 1 else 0)
    + (if idx + count > 12 + p && count > 0 then MissingDouble(p, disk, ib, if idx < 12 + p then 12 + p else idx) else 0)
  }

  /** The double-indirect part of the map has the tables it had. */
  ghost predicate SameSeconds(p: nat, disk: seq<Block>, ib: seq<word>, disk': seq<Block>, ib': seq<word>)
    requires |ib| == 15 && |ib'| == 15
  {
    ib'[13] == ib[13] && (ib[13] != 0 ==> forall k: nat :: k < p ==> Entry(disk', ib[13], k) == Entry(disk, ib[13], k))
  }

  /** Every section does its part of the missing tables. */
  lemma MissingSteps(p: nat, disk: seq<Block>, ib: seq<word>, disk': seq<Block>, ib': seq<word>, idx: nat, count: nat)
    requires p > 0 && |ib| == 15 && |ib'| == 15 && SameSeconds(p, disk, ib, disk', ib')
    ensures ib'[12] == ib[12] && disk' == disk ==>
        var n := if idx < 12 then Min(count, 12 - idx) else 0;
        Missing(p, disk, ib, idx, count) == Missing(p, disk', ib', idx + n, count - n)
    ensures 12 <= idx < 12 + p && count > 0 ==>
        var n := Min(count, 12 + p - idx);
        Missing(p, disk, ib, idx, count) == (if ib[12] == 0 then 1 else 0) + Missing(p, disk', ib', idx + n, count - n)
    ensures idx >= 12 + p && count > 0 ==> Missing(p, disk, ib, idx, count) == MissingDouble(p, disk, ib, idx)
    ensures Missing(p, disk, ib, idx, 0) == 0
  {
    SameMissing(p, disk, ib, disk', ib', 12 + p);
  }

  lemma SameMissing(p: nat, disk: seq<Block>, ib: seq<word>, disk': seq<Block>, ib': seq<word>, j: nat)
    requires p > 0 && |ib| == 15 && |ib'| == 15 && SameSeconds(p, disk, ib, disk', ib') && 12 + p <= j < Limit(p)
    ensures MissingDouble(p, disk', ib', j) == MissingDouble(p, disk, ib, j)
  {
    Slots(p, j);
  }

  /** How many indices one call starting at idx can reach: to the end of the first second-level table it touches. */
  function Capacity(p: nat, idx: nat): nat
    requires p > 0
  {
    if idx < 12 + p then 12 + p + p - idx
    else if idx < Limit(p) then (Slots(p, idx); p - Second(p, idx))
    else 0
  }

  /** Everything the double-indirect table points to. */
  ghost function FirstLevel(p: nat, disk: seq<Block>, root: nat): set<nat> {
    set k: nat | k < p :: Entry(disk, root, k) as nat
  }

  lemma SameFirstLevel(p: nat, disk: seq<Block>, disk': seq<Block>, root: nat)
    requires forall k: nat :: k < p ==> Entry(disk', root, k) == Entry(disk, root, k)
    ensures FirstLevel(p, disk', root) == FirstLevel(p, disk, root)
  {
    forall x | x in FirstLevel(p, disk, root)
      ensures x in FirstLevel(p, disk', root)
    {
      var k: nat :| k < p && Entry(disk, root, k) == x;
      assert Entry(disk', root, k) == x;
    }
  }

  lemma FirstLevelGains(p: nat, disk: seq<Block>, disk': seq<Block>, root: nat, fl: nat, t: word)
    requires fl < p && Entry(disk, root, fl) == 0
    requires forall k: nat :: k < p ==> Entry(disk', root, k) == if k == fl then t else Entry(disk, root, k)
    ensures FirstLevel(p, disk', root) - {0} == FirstLevel(p, disk, root) + {t as nat} - {0}
  {
    forall x | x in FirstLevel(p, disk, root) && x != 0
      ensures x in FirstLevel(p, disk', root)
    {
      var k: nat :| k < p && Entry(disk, root, k) == x;
      assert Entry(disk', root, k) == x;
    }
    assert Entry(disk', root, fl) == t;
  }

  /** The blocks this inode uses for pointer tables. */
  ghost function Tables(p: nat, disk: seq<Block>, ib: seq<word>): set<nat>
    requires p > 0 && |ib| == 15
  {
    {ib[12], ib[13]} +
    (if ib[13] == 0 then {} else FirstLevel(p, disk, ib[13])) - {0}
  }

  /** Tables are on the disk and no two table pointers name the same block. */
  ghost predicate TablesOk(p: nat, disk: seq<Block>, ib: seq<word>) {
    && p > 0 && |ib| == 15
    && (forall b :: 0 <= b < |disk| ==> |disk[b]| == 4 * p)
    && (forall t :: t in Tables(p, disk, ib) ==> t < |disk|)
    && (ib[12] != 0 ==> ib[12] != ib[13])
    && (ib[13] != 0 ==> forall k :: 0 <= k < p && Entry(disk, ib[13], k) != 0 ==>
          Entry(disk, ib[13], k) != ib[12] && Entry(disk, ib[13], k) != ib[13])
    && (ib[13] != 0 ==> forall k, l :: 0 <= k < l < p && Entry(disk, ib[13], k) != 0 ==>
          Entry(disk, ib[13], k) != Entry(disk, ib[13], l))
  }

  /** Blocks agreeing on the tables agree on the table set. */
  lemma TablesDependOnTables(p: nat, disk: seq<Block>, disk': seq<Block>, ib: seq<word>)
    requires TablesOk(p, disk, ib) && |disk'| == |disk|
    requires forall b :: 0 <= b < |disk'| ==> |disk'[b]| == 4 * p
    requires forall t :: t in Tables(p, disk, ib) ==> disk'[t] == disk[t]
    ensures Tables(p, disk', ib) == Tables(p, disk, ib)
    ensures ib[13] != 0 ==> forall k: nat :: Entry(disk', ib[13], k) == Entry(disk, ib[13], k)
  {
    if ib[13] != 0 {
      assert ib[13] in Tables(p, disk, ib);
      SameFirstLevel(p, disk, disk', ib[13]);
    }
  }

  /** ... and on the whole map. */
  lemma MapDependsOnTables(p: nat, disk: seq<Block>, disk': seq<Block>, ib: seq<word>)
    requires TablesOk(p, disk, ib) && |disk'| == |disk|
    requires forall b :: 0 <= b < |disk'| ==> |disk'[b]| == 4 * p
    requires forall t :: t in Tables(p, disk, ib) ==> disk'[t] == disk[t]
    ensures TablesOk(p, disk', ib) && Tables(p, disk', ib) == Tables(p, disk, ib)
    ensures forall j: nat :: Ptr(p, disk', ib, j) == Ptr(p, disk, ib, j) && Mapped(p, disk', ib, j) == Mapped(p, disk, ib, j)
  {
    TablesDependOnTables(p, disk, disk', ib);
    assert ib[12] != 0 ==> ib[12] in Tables(p, disk, ib);
    forall j: nat
      ensures Ptr(p, disk', ib, j) == Ptr(p, disk, ib, j) && Mapped(p, disk', ib, j) == Mapped(p, disk, ib, j)
    {
      if 12 + p <= j < Limit(p) {
        SecondIsTable(p, disk, ib, j);
      }
    }
  }

  lemma EntryIsTable(p: nat, disk: seq<Block>, ib: seq<word>, k: nat)
    requires p > 0 && |ib| == 15 && k < p && ib[13] != 0
    ensures Entry(disk, ib[13], k) != 0 ==> Entry(disk, ib[13], k) in Tables(p, disk, ib)
  {
    assert Entry(disk, ib[13], k) as nat in FirstLevel(p, disk, ib[13]);
  }

  lemma SecondIsTable(p: nat, disk: seq<Block>, ib: seq<word>, j: nat)
    requires p > 0 && |ib| == 15 && 12 + p <= j < Limit(p)
    ensures SecondTable(p, disk, ib, j) != 0 ==> SecondTable(p, disk, ib, j) in Tables(p, disk, ib)
  {
    Slots(p, j);
  }

  /** The map changed at exactly [idx, idx + |ws|), which now holds ws. */
  ghost predicate Updated(p: nat, disk: seq<Block>, ib: seq<word>, disk': seq<Block>, ib': seq<word>, idx: nat, ws: seq<word>)
    requires p > 0 && |ib| == 15
  {
    && |ib'| == 15
    && forall j: nat :: Ptr(p, disk', ib', j) == if idx <= j < idx + |ws| then ws[j - idx] else Ptr(p, disk, ib, j)
  }

  /** The inode grew its tables from the free set and touched nothing else outside them. */
  ghost predicate Grown(free: set<nat>, disk: seq<Block>, tables: set<nat>, bitmaps: set<nat>,
                        free': set<nat>, disk': seq<Block>, tables': set<nat>)
  {
    && tables <= tables' && tables' - tables <= free && free' == free - (tables' - tables)
    && |disk'| == |disk|
    && forall b :: 0 <= b < |disk| && b !in tables' && b !in bitmaps ==> disk'[b] == disk[b]
  }

  lemma DirectUpdate(p: nat, disk: seq<Block>, ib: seq<word>, idx: nat, ws: seq<word>)
    requires TablesOk(p, disk, ib) && idx + |ws| <= 12
    ensures TablesOk(p, disk, Splice(ib, idx, ws)) && Tables(p, disk, Splice(ib, idx, ws)) == Tables(p, disk, ib)
    ensures Updated(p, disk, ib, disk, Splice(ib, idx, ws), idx, ws)
  {
    assert Tables(p, disk, Splice(ib, idx, ws)) == Tables(p, disk, ib);
  }

  /** Hanging a zeroed block into the single-indirect slot leaves the map as it was. */
  lemma HangSingle(p: nat, disk: seq<Block>, ib: seq<word>, t: word)
    requires TablesOk(p, disk, ib) && ib[12] == 0
    requires t != 0 && t !in Tables(p, disk, ib) && t < |disk| && disk[t] == Zeros(4 * p)
    ensures TablesOk(p, disk, ib[12 := t]) && Tables(p, disk, ib[12 := t]) == Tables(p, disk, ib) + {t as nat}
    ensures Updated(p, disk, ib, disk, ib[12 := t], 0, [])
  {
    forall k: nat | k < p ensures Entry(disk, t, k) == 0 { ZeroWords(4 * p, k); }
    if ib[13] != 0 {
      forall k: nat | k < p ensures Entry(disk, ib[13], k) != t { EntryIsTable(p, disk, ib, k); }
    }
    assert Tables(p, disk, ib[12 := t]) == Tables(p, disk, ib) + {t as nat};
  }

  /** Hanging a zeroed block into the double-indirect slot leaves the map as it was. */
  lemma HangDouble(p: nat, disk: seq<Block>, ib: seq<word>, t: word)
    requires TablesOk(p, disk, ib) && ib[13] == 0
    requires t != 0 && t !in Tables(p, disk, ib) && t < |disk| && disk[t] == Zeros(4 * p)
    ensures TablesOk(p, disk, ib[13 := t]) && Tables(p, disk, ib[13 := t]) == Tables(p, disk, ib) + {t as nat}
    ensures Updated(p, disk, ib, disk, ib[13 := t], 0, [])
  {
    forall k: nat | k < p ensures Entry(disk, t, k) == 0 { ZeroWords(4 * p, k); }
    assert FirstLevel(p, disk, t) <= {0};
    assert Tables(p, disk, ib[13 := t]) == Tables(p, disk, ib) + {t as nat};
    forall j: nat
      ensures Ptr(p, disk, ib[13 := t], j) == Ptr(p, disk, ib, j)
    {
      if 12 + p <= j < Limit(p) {
        Slots(p, j);
      }
    }
  }

  /** Hanging a zeroed block into an empty first-level slot leaves the map as it was. */
  lemma HangSecond(p: nat, disk: seq<Block>, ib: seq<word>, fl: nat, t: word, disk': seq<Block>)
    requires TablesOk(p, disk, ib) && ib[13] != 0 && fl < p && Entry(disk, ib[13], fl) == 0
    requires t != 0 && t !in Tables(p, disk, ib) && t < |disk| && disk[t] == Zeros(4 * p)
    requires ib[13] < |disk| && disk' == disk[ib[13] := Splice(disk[ib[13]], 4 * fl, EncodeWords([t]))]
    ensures TablesOk(p, disk', ib) && Tables(p, disk', ib) == Tables(p, disk, ib) + {t as nat}
    ensures Updated(p, disk, ib, disk', ib, 0, [])
  {
    forall k: nat | k < p
      ensures Entry(disk', ib[13], k) == if k == fl then t else Entry(disk, ib[13], k)
    {
      SplicedWords(disk[ib[13]], fl, [t], k);
    }
    HangSecondTables(p, disk, ib, fl, t, disk');
    forall j: nat
      ensures Ptr(p, disk', ib, j) == Ptr(p, disk, ib, j)
    {
      HangSecondMap(p, disk, ib, fl, t, disk', j);
    }
  }

  lemma HangSecondTables(p: nat, disk: seq<Block>, ib: seq<word>, fl: nat, t: word, disk': seq<Block>)
    requires TablesOk(p, disk, ib) && ib[13] != 0 && fl < p && Entry(disk, ib[13], fl) == 0
    requires t != 0 && t !in Tables(p, disk, ib) && t < |disk|
    requires |disk'| == |disk| && forall b :: 0 <= b < |disk| ==> |disk'[b]| == 4 * p
    requires forall k: nat :: k < p ==> Entry(disk', ib[13], k) == if k == fl then t else Entry(disk, ib[13], k)
    ensures TablesOk(p, disk', ib) && Tables(p, disk', ib) == Tables(p, disk, ib) + {t as nat}
  {
    forall k: nat | k < p
      ensures Entry(disk, ib[13], k) != t
    {
      EntryIsTable(p, disk, ib, k);
    }
    FirstLevelGains(p, disk, disk', ib[13], fl, t);
    assert Tables(p, disk', ib) == Tables(p, disk, ib) + {t as nat};
  }

  lemma HangSecondMap(p: nat, disk: seq<Block>, ib: seq<word>, fl: nat, t: word, disk': seq<Block>, j: nat)
    requires TablesOk(p, disk, ib) && ib[13] != 0 && fl < p && Entry(disk, ib[13], fl) == 0
    requires t != 0 && t < |disk| && t != ib[13] && disk[t] == Zeros(4 * p)
    requires |disk'| == |disk| && forall b :: 0 <= b < |disk| && b != ib[13] ==> disk'[b] == disk[b]
    requires forall k: nat :: k < p ==> Entry(disk', ib[13], k) == if k == fl then t else Entry(disk, ib[13], k)
    ensures Ptr(p, disk', ib, j) == Ptr(p, disk, ib, j)
  {
    hide WordAt, First, Second, Limit, Zeros;
    if 12 + p <= j < Limit(p) {
      Slots(p, j);
      var s := Entry(disk, ib[13], First(p, j));
      if First(p, j) == fl {
        ZeroWords(4 * p, Second(p, j));
      } else if s != 0 {
        assert s != ib[13];
      }
    }
  }

  /** Copying pointers into the single-indirect table updates exactly their indices. */
  lemma SingleUpdate(p: nat, disk: seq<Block>, ib: seq<word>, idx: nat, ws: seq<word>, disk': seq<Block>)
    requires TablesOk(p, disk, ib) && 12 <= idx && idx + |ws| <= 12 + p && 0 != ib[12] < |disk|
    requires disk' == disk[ib[12] := Splice(disk[ib[12]], 4 * (idx - 12), EncodeWords(ws))]
    ensures TablesOk(p, disk', ib) && Tables(p, disk', ib) == Tables(p, disk, ib)
    ensures Updated(p, disk, ib, disk', ib, idx, ws)
  {
    hide WordAt, First, Second, Limit;
    LeafWritten(p, disk, disk', ib, ib[12]);
    forall j: nat
      ensures Ptr(p, disk', ib, j) == if idx <= j < idx + |ws| then ws[j - idx] else Ptr(p, disk, ib, j)
    {
      if 12 <= j < 12 + p {
        SplicedWords(disk[ib[12]], idx - 12, ws, j - 12);
      } else if 12 + p <= j < Limit(p) {
        Slots(p, j);
        SecondKept(p, disk, disk', ib, ib[12], j);
      }
    }
  }

  /** Writing a table other than the double-indirect one leaves the table structure alone. */
  lemma LeafWritten(p: nat, disk: seq<Block>, disk': seq<Block>, ib: seq<word>, t: nat)
    requires TablesOk(p, disk, ib) && |disk'| == |disk| && (forall b :: 0 <= b < |disk'| ==> |disk'[b]| == 4 * p)
    requires t != ib[13] && forall b :: 0 <= b < |disk| && b != t ==> disk'[b] == disk[b]
    ensures TablesOk(p, disk', ib) && Tables(p, disk', ib) == Tables(p, disk, ib)
    ensures forall k: nat :: Entry(disk', ib[13], k) == Entry(disk, ib[13], k)
  {
    SameFirstLevel(p, disk, disk', ib[13]);
    assert Tables(p, disk', ib) == Tables(p, disk, ib);
  }

  /** ... and the pointers held by any other second-level table. */
  lemma SecondKept(p: nat, disk: seq<Block>, disk': seq<Block>, ib: seq<word>, t: nat, j: nat)
    requires p > 0 && |ib| == 15 && 12 + p <= j < Limit(p) && |disk'| == |disk|
    requires forall b :: 0 <= b < |disk| && b != t ==> disk'[b] == disk[b]
    requires forall k: nat :: Entry(disk', ib[13], k) == Entry(disk, ib[13], k)
    requires SecondTable(p, disk, ib, j) == 0 || SecondTable(p, disk, ib, j) != t
    ensures Ptr(p, disk', ib, j) == Ptr(p, disk, ib, j)
  {
    hide Limit, WordAt;
    Slots(p, j);
    var s := SecondTable(p, disk, ib, j);
    assert SecondTable(p, disk', ib, j) == s;
  }

  /** Copying pointers into one second-level table updates exactly their indices. */
  lemma DoubleUpdate(p: nat, disk: seq<Block>, ib: seq<word>, idx: nat, ws: seq<word>, t: nat, disk': seq<Block>)
    requires TablesOk(p, disk, ib) && 12 + p <= idx < Limit(p) && Second(p, idx) + |ws| <= p
    requires t == SecondTable(p, disk, ib, idx) && 0 != t < |disk|
    requires disk' == disk[t := Splice(disk[t], 4 * Second(p, idx), EncodeWords(ws))]
    ensures TablesOk(p, disk', ib) && Tables(p, disk', ib) == Tables(p, disk, ib)
    ensures Updated(p, disk, ib, disk', ib, idx, ws)
  {
    Slots(p, idx);
    LeafWritten(p, disk, disk', ib, t);
    forall j: nat
      ensures Ptr(p, disk', ib, j) == if idx <= j < idx + |ws| then ws[j - idx] else Ptr(p, disk, ib, j)
    {
      if 12 + p <= j {
        DoubleUpdateAt(p, disk, ib, idx, ws, t, disk', j);
      }
    }
  }

  lemma DoubleUpdateAt(p: nat, disk: seq<Block>, ib: seq<word>, idx: nat, ws: seq<word>, t: nat, disk': seq<Block>, j: nat)
    requires TablesOk(p, disk, ib) && 12 + p <= idx < Limit(p) && Second(p, idx) + |ws| <= p && 12 + p <= j
    requires t == SecondTable(p, disk, ib, idx) && 0 != t < |disk|
    requires disk' == disk[t := Splice(disk[t], 4 * Second(p, idx), EncodeWords(ws))]
    requires forall k: nat :: Entry(disk', ib[13], k) == Entry(disk, ib[13], k)
    ensures Ptr(p, disk', ib, j) == if idx <= j < idx + |ws| then ws[j - idx] else Ptr(p, disk, ib, j)
  {
    hide Limit, First, Second, Tables;
    Slots(p, idx);
    Slots(p, j);
    SameTable(p, idx, j);
    if First(p, j) == First(p, idx) {
      SplicedWords(disk[t], Second(p, idx), ws, Second(p, j));
    } else if j < Limit(p) {
      SecondKept(p, disk, disk', ib, t, j);
    }
  }

  lemma UpdatesCompose(p: nat, disk0: seq<Block>, ib0: seq<word>, disk1: seq<Block>, ib1: seq<word>,
                       disk2: seq<Block>, ib2: seq<word>, idx: nat, ws: seq<word>, n: nat, m: nat)
    requires p > 0 && |ib0| == 15 && n <= m <= |ws|
    requires Updated(p, disk0, ib0, disk1, ib1, idx, ws[..n])
    requires Updated(p, disk1, ib1, disk2, ib2, idx + n, ws[n..m])
    ensures Updated(p, disk0, ib0, disk2, ib2, idx, ws[..m])
  {
    forall j: nat
      ensures Ptr(p, disk2, ib2, j) == if idx <= j < idx + m then ws[..m][j - idx] else Ptr(p, disk0, ib0, j)
    {
      assert Ptr(p, disk1, ib1, j) == if idx <= j < idx + n then ws[..n][j - idx] else Ptr(p, disk0, ib0, j);
    }
  }

  lemma GrowthComposes(free0: set<nat>, disk0: seq<Block>, tables0: set<nat>, bitmaps: set<nat>,
                       free1: set<nat>, disk1: seq<Block>, tables1: set<nat>,
                       free2: set<nat>, disk2: seq<Block>, tables2: set<nat>)
    requires Grown(free0, disk0, tables0, bitmaps, free1, disk1, tables1)
    requires Grown(free1, disk1, tables1, bitmaps, free2, disk2, tables2)
    ensures Grown(free0, disk0, tables0, bitmaps, free2, disk2, tables2)
  {
    assert tables2 - tables0 == (tables2 - tables1) + (tables1 - tables0);
  }

  /** The map's tables are sound and belong to nobody else. */
  ghost predicate MapOk(vol: Volume, inode: Inode)
    reads vol, inode
  {
    && vol.Valid()
    && |inode.block| == 15
    && Sound(vol.geo.Ptrs(), vol.bitmaps, Snap(vol, inode))
  }

  ghost function TablesOf(vol: Volume, inode: Inode): set<nat>
    requires vol.geo.Wf() && |inode.block| == 15
    reads vol, inode
  {
    Tables(vol.geo.Ptrs(), vol.disk, inode.block)
  }

  /** ws is what the map holds from idx on. */
  ghost predicate Reads(p: nat, disk: seq<Block>, ib: seq<word>, idx: nat, ws: seq<word>)
    requires p > 0 && |ib| == 15
  {
    forall j: nat :: idx <= j < idx + |ws| ==> Mapped(p, disk, ib, j) && Ptr(p, disk, ib, j) == ws[j - idx]
  }

  lemma ReadsAppend(p: nat, disk: seq<Block>, ib: seq<word>, idx: nat, ws: seq<word>, more: seq<word>)
    requires p > 0 && |ib| == 15 && Reads(p, disk, ib, idx, ws) && Reads(p, disk, ib, idx + |ws|, more)
    ensures Reads(p, disk, ib, idx, ws + more)
  {
  }

  /** What is left to do after a section has done its part, or all that was asked. */
  lemma CapacityStep(p: nat, idx: nat, left: nat)
    requires p > 0
    ensures var n := if idx < 12 then Min(left, 12 - idx) else 0;
      Min(left, Capacity(p, idx)) == n + Min(left - n, Capacity(p, idx + n))
    ensures 12 <= idx < 12 + p ==> var n := Min(left, 12 + p - idx);
      Min(left, Capacity(p, idx)) == n + Min(left - n, Capacity(p, idx + n))
    ensures 12 + p <= idx < Limit(p) ==> Capacity(p, idx) == p - Second(p, idx)
    ensures idx >= Limit(p) ==> Capacity(p, idx) == 0
  {
    hide Limit, Second;
    CapacityFromDouble(p);
  }

  lemma CapacityFromDouble(p: nat)
    requires p > 0
    ensures Capacity(p, 12 + p) == p && Limit(p) > 12 + p
  {
    assert p * p >= p;
    DivModUnique(0, p, 0, 0);
  }

  /** The result stops early only at an index that has no table slot. */
  method ReadBlockPointers(vol: Volume, inode: Inode, blockIdx: nat, count: nat) returns (blocks: seq<word>)
    requires MapOk(vol, inode) && blockIdx + count < 0x1_0000_0000
    ensures ReadResult(vol.geo.Ptrs(), vol.disk, inode.block, blockIdx, count, blocks)
  {
    blocks := ReadSections(vol.geo.Ptrs(), vol.disk, inode.block, blockIdx, count);
  }

  ghost predicate ReadResult(p: nat, disk: seq<Block>, ib: seq<word>, idx: nat, count: nat, blocks: seq<word>)
    requires p > 0 && |ib| == 15
  {
    var n := Min(count, Capacity(p, idx));
    && |blocks| <= n && Reads(p, disk, ib, idx, blocks)
    && (|blocks| < n ==> !Mapped(p, disk, ib, idx + |blocks|))
  }

  method ReadSections(p: nat, disk: seq<Block>, ib: seq<word>, blockIdx: nat, count: nat) returns (blocks: seq<word>)
    requires TablesOk(p, disk, ib) && 0 < p <= 0x4000 && |ib| == 15 && blockIdx + count < 0x1_0000_0000
    ensures ReadResult(p, disk, ib, blockIdx, count, blocks)
  {
    hide Ptr, Mapped, TablesOk, Capacity, Limit, Second, Reads;
    var idx, left := blockIdx, count;
    CapacityStep(p, idx, left);
    blocks := ReadDirect(p, disk, ib, idx, left);
    idx, left := idx + |blocks|, left - |blocks|;
    assert Min(count, Capacity(p, blockIdx)) == |blocks| + Min(left, Capacity(p, idx));
    CapacityStep(p, idx, left);
    var single := ReadSingle(p, disk, ib, idx, left);
    ReadsAppend(p, disk, ib, blockIdx, blocks, single);
    blocks, idx, left := blocks + single, idx + |single|, left - |single|;
    assert Min(count, Capacity(p, blockIdx)) == |blocks| + Min(left, Capacity(p, idx));
    CapacityStep(p, idx, left);
    var double := ReadDouble(p, disk, ib, idx, left);
    ReadsAppend(p, disk, ib, blockIdx, blocks, double);
    blocks := blocks + double;
  }

  /** The direct section: `if (block_idx < 12)`. */
  method ReadDirect(p: nat, disk: seq<Block>, ib: seq<word>, idx: nat, left: nat) returns (ws: seq<word>)
    requires TablesOk(p, disk, ib)
    ensures |ws| == (if idx < 12 then Min(left, 12 - idx) else 0) && Reads(p, disk, ib, idx, ws)
  {
    ws := if idx < 12 then ib[idx..idx + Min(left, 12 - idx)] else [];
  }

  /** The single-indirect section. */
  method ReadSingle(p: nat, disk: seq<Block>, ib: seq<word>, idx: nat, left: nat) returns (ws: seq<word>)
    requires TablesOk(p, disk, ib) && (left > 0 ==> idx >= 12)
    ensures Reads(p, disk, ib, idx, ws)
    ensures |ws| == if left > 0 && idx < 12 + p && Mapped(p, disk, ib, idx) then Min(left, 12 + p - idx) else 0
  {
    ws := [];
    if left > 0 && idx < 12 + p && ib[12] != 0 {
      var start := idx - 12;
      assert ib[12] as nat in Tables(p, disk, ib);
      ws := ReadWords(disk[ib[12]], start, Min(left, p - start));
    }
  }

  /** The double-indirect section.  An index below its range, left over when slot 12 is empty, wraps around and reads nothing. */
  method ReadDouble(p: nat, disk: seq<Block>, ib: seq<word>, idx: nat, left: nat) returns (ws: seq<word>)
    requires TablesOk(p, disk, ib) && p <= 0x4000 && idx < 0x1_0000_0000
    requires left > 0 ==> idx >= 12
    requires left > 0 && idx < 12 + p ==> !Mapped(p, disk, ib, idx)
    ensures Reads(p, disk, ib, idx, ws)
    ensures |ws| == if left > 0 && 12 + p <= idx < Limit(p) && Mapped(p, disk, ib, idx) then Min(left, p - Second(p, idx)) else 0
  {
    ws := [];
    if left > 0 && idx < Limit(p) && ib[13] != 0 {
      var start := (idx - 12 - p) % 0x1_0000_0000;
      var firstLevel, secondLevel := start / p, start % p;
      WrapsOut(p, idx);
      assert ib[13] as nat in Tables(p, disk, ib);
      var firstIndirect := disk[ib[13]];
      if firstLevel < p && WordAt(firstIndirect, firstLevel) != 0 {
        EntryIsTable(p, disk, ib, firstLevel);
        ws := ReadWords(disk[WordAt(firstIndirect, firstLevel)], secondLevel, Min(left, p - secondLevel));
        ReadsSecond(p, disk, ib, idx, ws);
      }
    }
  }

  lemma ReadsSecond(p: nat, disk: seq<Block>, ib: seq<word>, idx: nat, ws: seq<word>)
    requires p > 0 && |ib| == 15 && 12 + p <= idx < Limit(p) && SecondTable(p, disk, ib, idx) != 0
    requires Second(p, idx) + |ws| <= p
    requires forall k: nat :: k < |ws| ==> ws[k] == Entry(disk, SecondTable(p, disk, ib, idx), Second(p, idx) + k)
    ensures Reads(p, disk, ib, idx, ws)
  {
    forall j: nat | idx <= j < idx + |ws|
      ensures Mapped(p, disk, ib, j) && Ptr(p, disk, ib, j) == ws[j - idx]
    {
      Slots(p, idx);
      Slots(p, j);
      SameTable(p, idx, j);
    }
  }

  lemma WrapsOut(p: nat, idx: nat)
    requires 0 < p <= 0x4000 && 12 <= idx < Limit(p) && idx < 0x1_0000_0000
    ensures var start := (idx - 12 - p) % 0x1_0000_0000;
      if idx < 12 + p then start / p >= p
      else start / p == First(p, idx) < p && start % p == Second(p, idx) < p
  {
    var start := (idx - 12 - p) % 0x1_0000_0000;
    DivMod(start, p);
    if idx < 12 + p {
      assert start == 0x1_0000_0000 + idx - 12 - p;
      if start / p < p {
        MulMonotone(start / p + 1, p, p);
        MulMonotone(p, 0x4000, p);
      }
    } else {
      Slots(p, idx);
    }
  }

  /** `kmemcpy(out, table + start, n * sizeof(uint32_t))` */
  function ReadWords(b: Block, start: nat, n: nat): (ws: seq<word>)
    requires 4 * (start + n) <= |b|
    ensures |ws| == n && forall k: nat :: k < n ==> ws[k] == WordAt(b, start + k)
  {
    seq<word>(n, k requires 0 <= k < n => WordAt(b, start + k))
  }

  // ---------------------------------------------------------------- writing

  /** What a pointer write can change: the free set, the disk and the inode's pointers. */
  datatype Snapshot = Snapshot(free: set<nat>, disk: seq<Block>, ib: seq<word>)

  ghost function Snap(vol: Volume, inode: Inode): Snapshot
    requires vol.Valid()
    reads vol, inode
  {
    Snapshot(vol.Free(), vol.disk, inode.block)
  }

  ghost predicate Sound(p: nat, bitmaps: set<nat>, s: Snapshot) {
    TablesOk(p, s.disk, s.ib) && Tables(p, s.disk, s.ib) !! s.free + bitmaps
  }

  /** The effect of one pointer write: the map, the tables, the free set and every other block. */
  ghost predicate Wrote(p: nat, bitmaps: set<nat>, s: Snapshot, s': Snapshot, idx: nat, ws: seq<word>) {
    && p > 0 && |s.ib| == 15 && Sound(p, bitmaps, s')
    && Updated(p, s.disk, s.ib, s'.disk, s'.ib, idx, ws)
    && Grown(s.free, s.disk, Tables(p, s.disk, s.ib), bitmaps, s'.free, s'.disk, Tables(p, s'.disk, s'.ib))
  }

  /** At most a first double-indirect table was hung: all that a write which wrote no pointer can have done. */
  ghost predicate HungRoot(bitmaps: set<nat>, s: Snapshot, s': Snapshot) {
    && |s.ib| == |s'.ib| == 15 && |s'.disk| == |s.disk|
    && (forall b :: 0 <= b < |s.disk| && b !in bitmaps && b !in s.free ==> s'.disk[b] == s.disk[b])
    && (forall b :: 0 <= b < |s.disk| ==> |s'.disk[b]| == |s.disk[b]|)
    && if s'.ib == s.ib then s'.free == s.free
       else s.ib[13] == 0 && s'.ib == s.ib[13 := s'.ib[13]] && s'.ib[13] as nat in s.free && s'.free == s.free - {s'.ib[13] as nat}
  }

  lemma WritesCompose(p: nat, bitmaps: set<nat>, s0: Snapshot, s1: Snapshot, s2: Snapshot, idx: nat, ws: seq<word>, n: nat, m: nat)
    requires n <= m <= |ws|
    requires Wrote(p, bitmaps, s0, s1, idx, ws[..n]) && Wrote(p, bitmaps, s1, s2, idx + n, ws[n..m])
    ensures Wrote(p, bitmaps, s0, s2, idx, ws[..m])
  {
    UpdatesCompose(p, s0.disk, s0.ib, s1.disk, s1.ib, s2.disk, s2.ib, idx, ws, n, m);
    GrowthComposes(s0.free, s0.disk, Tables(p, s0.disk, s0.ib), bitmaps, s1.free, s1.disk, Tables(p, s1.disk, s1.ib),
                   s2.free, s2.disk, Tables(p, s2.disk, s2.ib));
  }

  lemma WroteNothing(p: nat, bitmaps: set<nat>, s: Snapshot)
    requires Sound(p, bitmaps, s)
    ensures Wrote(p, bitmaps, s, s, 0, [])
  {
  }

  lemma EmptyWrite(p: nat, bitmaps: set<nat>, s: Snapshot, s': Snapshot, idx: nat, ws: seq<word>)
    requires Wrote(p, bitmaps, s, s', 0, [])
    ensures Wrote(p, bitmaps, s, s', idx, ws[..0])
  {
  }

  /** `disk'` is `disk` after the allocator handed out t and t was zeroed. */
  ghost predicate ZeroedFrom(p: nat, bitmaps: set<nat>, free: set<nat>, disk: seq<Block>, t: nat, disk': seq<Block>) {
    && t != 0 && t in free && |disk'| == |disk| && t < |disk| && disk'[t] == Zeros(4 * p)
    && (forall b :: 0 <= b < |disk'| ==> |disk'[b]| == 4 * p)
    && forall b :: 0 <= b < |disk| && b != t && b !in bitmaps ==> disk'[b] == disk[b]
  }

  /** Taking a zeroed block from the allocator does not disturb the map. */
  lemma Allocated(p: nat, bitmaps: set<nat>, s: Snapshot, t: nat, disk': seq<Block>)
    requires Sound(p, bitmaps, s) && ZeroedFrom(p, bitmaps, s.free, s.disk, t, disk')
    ensures TablesOk(p, disk', s.ib) && Tables(p, disk', s.ib) == Tables(p, s.disk, s.ib) && t !in Tables(p, s.disk, s.ib)
    ensures Updated(p, s.disk, s.ib, disk', s.ib, 0, [])
  {
    MapDependsOnTables(p, s.disk, disk', s.ib);
  }

  /** Taking a zeroed block and hanging it into inode slot 12 or 13. */
  lemma RootTableAdded(p: nat, bitmaps: set<nat>, s: Snapshot, slot: nat, t: word, disk': seq<Block>)
    requires Sound(p, bitmaps, s) && t !in bitmaps && 12 <= slot <= 13 && |s.ib| == 15 && s.ib[slot] == 0
    requires ZeroedFrom(p, bitmaps, s.free, s.disk, t, disk')
    ensures Wrote(p, bitmaps, s, Snapshot(s.free - {t as nat}, disk', s.ib[slot := t]), 0, [])
  {
    Allocated(p, bitmaps, s, t, disk');
    if slot == 12 {
      HangSingle(p, disk', s.ib, t);
    } else {
      HangDouble(p, disk', s.ib, t);
    }
    assert Tables(p, disk', s.ib[slot := t]) - Tables(p, s.disk, s.ib) == {t as nat};
  }

  /** A new single-indirect table is not the double-indirect one; a new double-indirect table is empty. */
  lemma RootTableSeconds(p: nat, bitmaps: set<nat>, s: Snapshot, slot: nat, t: word, disk': seq<Block>)
    requires Sound(p, bitmaps, s) && t !in bitmaps && 12 <= slot <= 13 && |s.ib| == 15 && s.ib[slot] == 0
    requires ZeroedFrom(p, bitmaps, s.free, s.disk, t, disk')
    ensures slot == 12 ==> SameSeconds(p, s.disk, s.ib, disk', s.ib[slot := t])
    ensures slot == 13 ==> forall k: nat :: k < p ==> Entry(disk', t, k) == 0
  {
    if slot == 12 && s.ib[13] != 0 {
      RootKept(p, bitmaps, s, t, disk');
    }
    forall k: nat | k < p && slot == 13
      ensures Entry(disk', t, k) == 0
    {
      ZeroWords(4 * p, k);
    }
  }

  lemma RootIsTable(vol: Volume, inode: Inode, slot: nat)
    requires MapOk(vol, inode) && 12 <= slot <= 13 && inode.block[slot] != 0
    ensures vol.geo.Wf() && inode.block[slot] as nat in TablesOf(vol, inode)
  {
  }

  lemma RootKept(p: nat, bitmaps: set<nat>, s: Snapshot, t: word, disk': seq<Block>)
    requires Sound(p, bitmaps, s) && |s.ib| == 15 && s.ib[13] != 0 && ZeroedFrom(p, bitmaps, s.free, s.disk, t, disk')
    ensures s.ib[13] as nat < |s.disk| == |disk'| && disk'[s.ib[13]] == s.disk[s.ib[13]] && s.ib[13] as nat !in bitmaps
  {
    assert s.ib[13] as nat in Tables(p, s.disk, s.ib);
  }

  /** Taking a zeroed block and hanging it into an empty first-level slot. */
  lemma SecondTableAdded(p: nat, bitmaps: set<nat>, s: Snapshot, fl: nat, t: word, zeroed: seq<Block>, disk': seq<Block>)
    requires Sound(p, bitmaps, s) && t !in bitmaps && ZeroedFrom(p, bitmaps, s.free, s.disk, t, zeroed)
    requires |s.ib| == 15 && s.ib[13] != 0 && fl < p && Entry(s.disk, s.ib[13], fl) == 0
    requires s.ib[13] < |zeroed| && disk' == zeroed[s.ib[13] := Splice(zeroed[s.ib[13]], 4 * fl, EncodeWords([t]))]
    ensures Wrote(p, bitmaps, s, Snapshot(s.free - {t as nat}, disk', s.ib), 0, [])
    ensures Entry(disk', s.ib[13], fl) == t
  {
    Allocated(p, bitmaps, s, t, zeroed);
    RootKept(p, bitmaps, s, t, zeroed);
    HangSecond(p, zeroed, s.ib, fl, t, disk');
    SplicedWords(zeroed[s.ib[13]], fl, [t], fl);
    assert Tables(p, disk', s.ib) - Tables(p, s.disk, s.ib) == {t as nat};
  }

  lemma SingleWritten(p: nat, bitmaps: set<nat>, s: Snapshot, idx: nat, ws: seq<word>, disk': seq<Block>)
    requires Sound(p, bitmaps, s) && 12 <= idx && idx + |ws| <= 12 + p && |s.ib| == 15 && 0 != s.ib[12] < |s.disk|
    requires disk' == s.disk[s.ib[12] := Splice(s.disk[s.ib[12]], 4 * (idx - 12), EncodeWords(ws))]
    ensures Wrote(p, bitmaps, s, Snapshot(s.free, disk', s.ib), idx, ws)
  {
    SingleUpdate(p, s.disk, s.ib, idx, ws, disk');
    assert s.ib[12] as nat in Tables(p, s.disk, s.ib);
  }

  lemma DoubleWritten(p: nat, bitmaps: set<nat>, s: Snapshot, idx: nat, ws: seq<word>, t: nat, disk': seq<Block>)
    requires Sound(p, bitmaps, s) && p > 0 && 12 + p <= idx < Limit(p) && Second(p, idx) + |ws| <= p && |s.ib| == 15
    requires t == SecondTable(p, s.disk, s.ib, idx) && 0 != t < |s.disk|
    requires disk' == s.disk[t := Splice(s.disk[t], 4 * Second(p, idx), EncodeWords(ws))]
    ensures Wrote(p, bitmaps, s, Snapshot(s.free, disk', s.ib), idx, ws)
  {
    DoubleUpdate(p, s.disk, s.ib, idx, ws, t, disk');
    SecondIsTable(p, s.disk, s.ib, idx);
  }

  /** A write leaves a sound map behind. */
  lemma WroteOk(vol: Volume, inode: Inode, s: Snapshot, idx: nat, ws: seq<word>)
    requires vol.Valid() && Wrote(vol.geo.Ptrs(), vol.bitmaps, s, Snap(vol, inode), idx, ws)
    ensures MapOk(vol, inode)
  {
  }

  /** Table blocks can be written without disturbing the allocator. */
  lemma TableBlock(vol: Volume, inode: Inode, t: nat)
    requires MapOk(vol, inode) && t in TablesOf(vol, inode)
    ensures t < |vol.disk| == vol.geo.totalBlocks < 0x1_0000_0000 && t !in vol.bitmaps && t !in vol.Free()
    ensures |vol.disk[t]| == vol.geo.blockSize == 4 * vol.geo.Ptrs()
  {
  }

  /** `allocate_block` followed by writing a zeroed block there; 0 when nothing is free. */
  method AllocateZeroed(vol: Volume) returns (t: nat)
    requires vol.Valid()
    modifies vol
    ensures vol.Valid()
    ensures t == 0 ==> old(vol.Free()) == {} && vol.disk == old(vol.disk)
    ensures t != 0 ==> ZeroedFrom(vol.geo.Ptrs(), vol.bitmaps, old(vol.Free()), old(vol.disk), t, vol.disk)
    ensures t != 0 ==> t < 0x1_0000_0000 && t !in vol.bitmaps && t in old(vol.Free())
    ensures vol.Free() == old(vol.Free()) - {t}
  {
    hide Flipped, CountsAgree, IsFree;
    t := vol.AllocateBlock();
    if t != 0 {
      assert t in old(vol.Free()) && t < vol.geo.totalBlocks && t !in vol.bitmaps;
      vol.WriteBlock(t, Zeros(vol.geo.blockSize));
    }
  }

  /** `if (inode->block[slot] == 0)`: make sure the inode's table in slot 12 or 13 exists. */
  method NeedRootTable(vol: Volume, inode: Inode, slot: nat) returns (ok: bool)
    requires MapOk(vol, inode) && 12 <= slot <= 13
    modifies vol, inode`block
    ensures vol.Valid()
    ensures Wrote(vol.geo.Ptrs(), vol.bitmaps, old(Snap(vol, inode)), Snap(vol, inode), 0, [])
    ensures |inode.block| == 15 && if ok then inode.block[slot] != 0 else vol.Free() == {}
    ensures ok <==> old(inode.block[slot] != 0 || vol.Free() != {})
    ensures |vol.Free()| == |old(vol.Free())| - if ok && old(inode.block[slot] == 0) then 1 else 0
    ensures old(inode.block[slot] != 0) || !ok ==> vol.disk == old(vol.disk) && inode.block == old(inode.block)
    ensures slot == 13 || !ok ==> HungRoot(vol.bitmaps, old(Snap(vol, inode)), Snap(vol, inode))
    ensures slot == 12 ==> SameSeconds(vol.geo.Ptrs(), old(vol.disk), old(inode.block), vol.disk, inode.block)
    ensures slot == 13 && ok && old(inode.block[slot] == 0) ==>
        forall k: nat :: k < vol.geo.Ptrs() ==> Entry(vol.disk, inode.block[slot], k) == 0
  {
    ghost var p := vol.geo.Ptrs();
    WroteNothing(p, vol.bitmaps, Snap(vol, inode));
    ok := true;
    if inode.block[slot] == 0 {
      var t := AllocateZeroed(vol);
      if t == 0 {
        return false;
      }
      RootTableAdded(p, vol.bitmaps, old(Snap(vol, inode)), slot, t, vol.disk);
      RootTableSeconds(p, vol.bitmaps, old(Snap(vol, inode)), slot, t, vol.disk);
      inode.block := inode.block[slot := t];
    }
  }

  /** `if (first_indirect[first_level] == 0)`: make sure the second-level table exists. */
  method NeedSecondTable(vol: Volume, inode: Inode, fl: nat) returns (ok: bool)
    requires MapOk(vol, inode) && inode.block[13] != 0 && fl < vol.geo.Ptrs()
    modifies vol
    ensures vol.Valid()
    ensures Wrote(vol.geo.Ptrs(), vol.bitmaps, old(Snap(vol, inode)), Snap(vol, inode), 0, [])
    ensures if ok then Entry(vol.disk, inode.block[13], fl) != 0 else vol.Free() == {}
    ensures ok <==> old(Entry(vol.disk, inode.block[13], fl) != 0 || vol.Free() != {})
    ensures !ok ==> vol.disk == old(vol.disk)
    ensures |vol.Free()| == |old(vol.Free())| - if ok && old(Entry(vol.disk, inode.block[13], fl) == 0) then 1 else 0
  {
    hide Consistent, Sound, Wrote, Tables, ZeroedFrom, FreeBlocks, WordAt, JoinBytes;
    ghost var p, s := vol.geo.Ptrs(), Snap(vol, inode);
    WroteNothing(p, vol.bitmaps, s);
    RootIsTable(vol, inode, 13);
    var root := inode.block[13];
    TableBlock(vol, inode, root);
    var firstIndirect := vol.disk[root];
    ok := true;
    assert Entry(vol.disk, root, fl) == WordAt(firstIndirect, fl);
    if WordAt(firstIndirect, fl) == 0 {
      var t := AllocateZeroed(vol);
      if t == 0 {
        assert vol.Free() == old(vol.Free());
        return false;
      }
      ghost var zeroed := vol.disk;
      RootKept(p, vol.bitmaps, s, t, zeroed);
      vol.WriteBlock(root, Splice(firstIndirect, 4 * fl, EncodeWords([t])));
      SecondTableAdded(p, vol.bitmaps, s, fl, t, zeroed, vol.disk);
    }
  }

  /** `kmemcpy` into the single-indirect table and write it back. */
  method FillSingle(vol: Volume, inode: Inode, idx: nat, ws: seq<word>)
    requires MapOk(vol, inode) && inode.block[12] != 0 && 12 <= idx && idx + |ws| <= 12 + vol.geo.Ptrs()
    modifies vol
    ensures vol.Valid() && vol.Free() == old(vol.Free())
    ensures Wrote(vol.geo.Ptrs(), vol.bitmaps, old(Snap(vol, inode)), Snap(vol, inode), idx, ws)
    ensures |inode.block| == 15 && SameSeconds(vol.geo.Ptrs(), old(vol.disk), inode.block, vol.disk, inode.block)
  {
    var table := inode.block[12];
    TableBlock(vol, inode, table);
    vol.WriteBlock(table, Splice(vol.disk[table], 4 * (idx - 12), EncodeWords(ws)));
    SingleWritten(vol.geo.Ptrs(), vol.bitmaps, old(Snap(vol, inode)), idx, ws, vol.disk);
  }

  /** The single-indirect section of `write_block_pointers`. */
  method WriteSingle(vol: Volume, inode: Inode, idx: nat, ws: seq<word>) returns (n: nat)
    requires MapOk(vol, inode) && 12 <= idx < 12 + vol.geo.Ptrs()
    modifies vol, inode`block
    ensures vol.Valid() && n <= |ws|
    ensures Wrote(vol.geo.Ptrs(), vol.bitmaps, old(Snap(vol, inode)), Snap(vol, inode), idx, ws[..n])
    ensures |inode.block| == 15 && n == if old(inode.block[12] == 0 && vol.Free() == {}) then 0 else Min(|ws|, 12 + vol.geo.Ptrs() - idx)
    ensures n == 0 && ws != [] ==> HungRoot(vol.bitmaps, old(Snap(vol, inode)), Snap(vol, inode))
    ensures |vol.Free()| == |old(vol.Free())| - if old(inode.block[12] == 0 && vol.Free() != {}) then 1 else 0
    ensures SameSeconds(vol.geo.Ptrs(), old(vol.disk), old(inode.block), vol.disk, inode.block)
  {
    hide Consistent, Sound, Wrote;
    var p := vol.geo.Ptrs();
    var ok := NeedRootTable(vol, inode, 12);
    ghost var s := Snap(vol, inode);
    EmptyWrite(p, vol.bitmaps, old(Snap(vol, inode)), s, idx, ws);
    if !ok {
      return 0;
    }
    n := Min(|ws|, 12 + p - idx);
    WroteOk(vol, inode, old(Snap(vol, inode)), 0, []);
    FillSingle(vol, inode, idx, ws[..n]);
    assert ws[0..n] == ws[..n];
    WritesCompose(p, vol.bitmaps, old(Snap(vol, inode)), s, Snap(vol, inode), idx, ws, 0, n);
  }

  /** `kmemcpy` into one second-level table and write it back. */
  method FillSecond(vol: Volume, inode: Inode, idx: nat, ws: seq<word>)
    requires MapOk(vol, inode) && vol.geo.Ptrs() > 0 && 12 + vol.geo.Ptrs() <= idx < Limit(vol.geo.Ptrs())
    requires SecondTable(vol.geo.Ptrs(), vol.disk, inode.block, idx) != 0 && Second(vol.geo.Ptrs(), idx) + |ws| <= vol.geo.Ptrs()
    modifies vol
    ensures vol.Valid() && vol.Free() == old(vol.Free())
    ensures Wrote(vol.geo.Ptrs(), vol.bitmaps, old(Snap(vol, inode)), Snap(vol, inode), idx, ws)
  {
    hide Consistent, Wrote, Tables, WordAt;
    var p := vol.geo.Ptrs();
    var table := SecondTable(p, vol.disk, inode.block, idx);
    SecondIsTable(p, vol.disk, inode.block, idx);
    TableBlock(vol, inode, table);
    vol.WriteBlock(table, Splice(vol.disk[table], 4 * Second(p, idx), EncodeWords(ws)));
    DoubleWritten(p, vol.bitmaps, old(Snap(vol, inode)), idx, ws, table, vol.disk);
  }

  /** The double-indirect section of `write_block_pointers`. */
  method WriteDouble(vol: Volume, inode: Inode, idx: nat, ws: seq<word>) returns (n: nat)
    requires MapOk(vol, inode) && vol.geo.Ptrs() > 0 && 12 + vol.geo.Ptrs() <= idx < Limit(vol.geo.Ptrs())
    modifies vol, inode`block
    ensures vol.Valid() && n <= |ws|
    ensures Wrote(vol.geo.Ptrs(), vol.bitmaps, old(Snap(vol, inode)), Snap(vol, inode), idx, ws[..n])
    ensures var missing := old(MissingDouble(vol.geo.Ptrs(), vol.disk, inode.block, idx));
      if |old(vol.Free())| < missing then n == 0 && vol.Free() == {}
      else n == Min(|ws|, vol.geo.Ptrs() - Second(vol.geo.Ptrs(), idx)) && |vol.Free()| == |old(vol.Free())| - missing
    ensures n == 0 && ws != [] ==> HungRoot(vol.bitmaps, old(Snap(vol, inode)), Snap(vol, inode))
  {
    hide Consistent, Sound, Wrote, Entry, Limit;
    var p := vol.geo.Ptrs();
    Slots(p, idx);
    var ok := NeedRootTable(vol, inode, 13);
    ghost var s := Snap(vol, inode);
    EmptyWrite(p, vol.bitmaps, old(Snap(vol, inode)), s, idx, ws);
    if !ok {
      return 0;
    }
    WroteOk(vol, inode, old(Snap(vol, inode)), 0, []);
    ok := NeedSecondTable(vol, inode, First(p, idx));
    ghost var s1 := Snap(vol, inode);
    EmptyWrite(p, vol.bitmaps, s, s1, idx, ws);
    EmptyWritesCompose(p, vol.bitmaps, old(Snap(vol, inode)), s, s1, idx, ws);
    if !ok {
      return 0;
    }
    WroteOk(vol, inode, s, 0, []);
    n := Min(|ws|, p - Second(p, idx));
    FillSecond(vol, inode, idx, ws[..n]);
    assert ws[0..n] == ws[..n];
    WritesCompose(p, vol.bitmaps, old(Snap(vol, inode)), s1, Snap(vol, inode), idx, ws, 0, n);
  }

  lemma EmptyWritesCompose(p: nat, bitmaps: set<nat>, s0: Snapshot, s1: Snapshot, s2: Snapshot, idx: nat, ws: seq<word>)
    requires Wrote(p, bitmaps, s0, s1, idx, ws[..0]) && Wrote(p, bitmaps, s1, s2, idx, ws[..0])
    ensures Wrote(p, bitmaps, s0, s2, idx, ws[..0])
  {
    assert ws[0..0] == ws[..0];
    WritesCompose(p, bitmaps, s0, s1, s2, idx, ws, 0, 0);
  }

  /** The direct section of `write_block_pointers`. */
  method WriteDirect(vol: Volume, inode: Inode, idx: nat, ws: seq<word>) returns (n: nat)
    requires MapOk(vol, inode)
    modifies inode`block
    ensures vol.Valid() && n == (if idx < 12 then Min(|ws|, 12 - idx) else 0)
    ensures Wrote(vol.geo.Ptrs(), vol.bitmaps, old(Snap(vol, inode)), Snap(vol, inode), idx, ws[..n])
    ensures |inode.block| == 15 && inode.block[12] == old(inode.block[12]) && inode.block[13] == old(inode.block[13])
    ensures n == 0 ==> inode.block == old(inode.block)
  {
    hide Consistent, Sound, Wrote, FreeBlocks;
    EmptyWrite0(vol, inode, idx, ws);
    n := 0;
    if idx < 12 {
      n := Min(|ws|, 12 - idx);
      DirectWritten(vol.geo.Ptrs(), vol.bitmaps, Snap(vol, inode), idx, ws[..n]);
      inode.block := Splice(inode.block, idx, ws[..n]);
    }
  }

  lemma DirectWritten(p: nat, bitmaps: set<nat>, s: Snapshot, idx: nat, ws: seq<word>)
    requires Sound(p, bitmaps, s) && idx + |ws| <= 12
    ensures |s.ib| == 15 && Wrote(p, bitmaps, s, s.(ib := Splice(s.ib, idx, ws)), idx, ws)
  {
    DirectUpdate(p, s.disk, s.ib, idx, ws);
  }

  /**
   How far a pointer write gets: through the whole request exactly when that lies within the reach of one call and as
   many blocks are free as tables are missing, which are then taken; a shorter write within reach leaves nothing free.
   */
  predicate HowFar(p: nat, idx: nat, count: nat, missing: nat, free: nat, n: nat, free': nat)
    requires p > 0
  {
    && n <= Min(count, Capacity(p, idx)) && (n < Min(count, Capacity(p, idx)) ==> free' == 0)
    && (n == count <==> count <= Capacity(p, idx) && missing <= free)
    && (n == count ==> free' == free - missing)
  }

  /** The single-indirect and the double-indirect section. */
  method WriteIndirect(vol: Volume, inode: Inode, blockIdx: nat, blocks: seq<word>) returns (n: nat)
    requires MapOk(vol, inode) && blockIdx >= 12 && blocks != []
    modifies vol, inode`block
    ensures MapOk(vol, inode) && vol.geo.Ptrs() > 0 && n <= |blocks|
    ensures Wrote(vol.geo.Ptrs(), vol.bitmaps, old(Snap(vol, inode)), Snap(vol, inode), blockIdx, blocks[..n])
    ensures HowFar(vol.geo.Ptrs(), blockIdx, |blocks|, old(Missing(vol.geo.Ptrs(), vol.disk, inode.block, blockIdx, |blocks|)),
                   |old(vol.Free())|, n, |vol.Free()|)
    ensures n == 0 ==> HungRoot(vol.bitmaps, old(Snap(vol, inode)), Snap(vol, inode))
    ensures Capacity(vol.geo.Ptrs(), blockIdx) == 0 ==> Snap(vol, inode) == old(Snap(vol, inode))
  {
    hide Consistent, Sound, Wrote, Capacity, Second, Limit, Missing, MissingDouble, SameSeconds, HungRoot, FreeBlocks, Tables, Ptr;
    var p := vol.geo.Ptrs();
    PtrsPositive(vol);
    CapacityStep(p, blockIdx, |blocks|);
    if Capacity(p, blockIdx) == 0 {
      NoCapacity(p, blockIdx);
    }
    n := 0;
    ghost var s := Snap(vol, inode);
    EmptyWrite0(vol, inode, blockIdx, blocks);
    HungNothing(vol.bitmaps, s);
    if blockIdx < 12 + p {
      n := WriteSingle(vol, inode, blockIdx, blocks);
      WroteOk(vol, inode, s, blockIdx, blocks[..n]);
      MissingSteps(p, s.disk, s.ib, vol.disk, inode.block, blockIdx, |blocks|);
      if n == 0 {
        return;
      }
      CapacityStep(p, blockIdx + n, |blocks| - n);
    }
    SecondsKept(p, vol.disk, inode.block, inode.block);
    MissingSteps(p, vol.disk, inode.block, vol.disk, inode.block, blockIdx + n, |blocks| - n);
    if n < |blocks| && blockIdx + n < Limit(p) {
      ghost var s1 := Snap(vol, inode);
      var m := WriteDouble(vol, inode, blockIdx + n, blocks[n..]);
      assert blocks[n..][..m] == blocks[n..n + m];
      WritesCompose(p, vol.bitmaps, s, s1, Snap(vol, inode), blockIdx, blocks, n, n + m);
      n := n + m;
      WroteOk(vol, inode, s, blockIdx, blocks[..n]);
    }
  }

  /** Only behind the double-indirect range is there nothing to write. */
  lemma NoCapacity(p: nat, idx: nat)
    requires p > 0 && Capacity(p, idx) == 0
    ensures idx >= Limit(p) && Limit(p) > 12 + p
  {
    CapacityStep(p, idx, 1);
    CapacityFromDouble(p);
    if 12 + p <= idx < Limit(p) {
      Slots(p, idx);
    }
  }

  lemma HungNothing(bitmaps: set<nat>, s: Snapshot)
    requires |s.ib| == 15
    ensures HungRoot(bitmaps, s, s)
  {
  }

  lemma EmptyWrite0(vol: Volume, inode: Inode, idx: nat, ws: seq<word>)
    requires MapOk(vol, inode)
    ensures Wrote(vol.geo.Ptrs(), vol.bitmaps, Snap(vol, inode), Snap(vol, inode), idx, ws[..0])
  {
    PtrsPositive(vol);
    WroteNothing(vol.geo.Ptrs(), vol.bitmaps, Snap(vol, inode));
    EmptyWrite(vol.geo.Ptrs(), vol.bitmaps, Snap(vol, inode), Snap(vol, inode), idx, ws);
  }

  /** The map is updated at exactly [blockIdx, blockIdx + n). */
  method WriteBlockPointers(vol: Volume, inode: Inode, blockIdx: nat, blocks: seq<word>) returns (n: nat)
    requires MapOk(vol, inode)
    modifies vol, inode`block
    ensures MapOk(vol, inode) && vol.geo.Ptrs() > 0 && n <= |blocks|
    ensures Wrote(vol.geo.Ptrs(), vol.bitmaps, old(Snap(vol, inode)), Snap(vol, inode), blockIdx, blocks[..n])
    ensures HowFar(vol.geo.Ptrs(), blockIdx, |blocks|, old(Missing(vol.geo.Ptrs(), vol.disk, inode.block, blockIdx, |blocks|)),
                   |old(vol.Free())|, n, |vol.Free()|)
    ensures n == 0 && blocks != [] ==> HungRoot(vol.bitmaps, old(Snap(vol, inode)), Snap(vol, inode))
    ensures Capacity(vol.geo.Ptrs(), blockIdx) == 0 ==> Snap(vol, inode) == old(Snap(vol, inode))
  {
    hide Consistent, Sound, Wrote, Capacity, Second, Limit, Missing, MissingDouble, SameSeconds, HungRoot, FreeBlocks, Tables, Ptr;
    var p := vol.geo.Ptrs();
    PtrsPositive(vol);
    CapacityStep(p, blockIdx, |blocks|);
    if Capacity(p, blockIdx) == 0 {
      NoCapacity(p, blockIdx);
    }
    n := WriteDirect(vol, inode, blockIdx, blocks);
    WroteOk(vol, inode, old(Snap(vol, inode)), blockIdx, blocks[..n]);
    SecondsKept(p, vol.disk, old(inode.block), inode.block);
    MissingSteps(p, vol.disk, old(inode.block), vol.disk, inode.block, blockIdx, |blocks|);
    SecondsKept(p, vol.disk, inode.block, inode.block);
    MissingSteps(p, vol.disk, inode.block, vol.disk, inode.block, blockIdx + n, 0);
    if n < |blocks| {
      ghost var s := Snap(vol, inode);
      var m := WriteIndirect(vol, inode, blockIdx + n, blocks[n..]);
      assert blocks[n..][..m] == blocks[n..n + m];
      WritesCompose(p, vol.bitmaps, old(Snap(vol, inode)), s, Snap(vol, inode), blockIdx, blocks, n, n + m);
      n := n + m;
    }
  }

  lemma SecondsKept(p: nat, disk: seq<Block>, ib: seq<word>, ib': seq<word>)
    requires |ib| == 15 && |ib'| == 15 && ib'[13] == ib[13]
    ensures SameSeconds(p, disk, ib, disk, ib')
  {
  }

  lemma PtrsPositive(vol: Volume)
    requires vol.Valid()
    ensures vol.geo.Wf() && vol.geo.Ptrs() > 0
  {
  }
}
