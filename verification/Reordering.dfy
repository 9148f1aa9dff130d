/** The two passes of a two-stage load, as orders in which the segments of a file are written: what
    each pass selects, and when the order makes no difference to memory. */
module Reordering {
  import opened Memory
  import opened Merging
  import opened Target
  import opened Poking

  /** The segments a poke writes: the one segment, or none if the pass skips it. */
  function Unskipped(mode: Mode, part: Part, s: Block): seq<Block> {
    if Skips(mode, IsExternal(part, s.addr, |s.data|)) then [] else [s]
  }

  /** The segments a pass writes, in order. */
  function Selected(mode: Mode, part: Part, segments: seq<Block>): seq<Block> {
    if segments == [] then []
    else
      var s := segments[0];
      Unskipped(mode, part, s) + Selected(mode, part, segments[1..])
  }

  /** The segments one run of the loader writes, in order. */
  function WrittenBy(stage: bool, part: Part, all: seq<Block>): seq<Block> {
    if stage then Selected(SkipInternal, part, all) + Selected(SkipExternal, part, all) else all
  }

  lemma SelectedTrace(mode: Mode, part: Part, segments: seq<Block>)
    requires segments != []
    ensures var s, rest := segments[0], Trace(Selected(mode, part, segments[1..]));
            Trace(Selected(mode, part, segments)) ==
            if Skips(mode, IsExternal(part, s.addr, |s.data|)) then rest else Writes(s.addr, s.data) + rest
  {
    var s, tail := segments[0], Selected(mode, part, segments[1..]);
    if Skips(mode, IsExternal(part, s.addr, |s.data|)) {
      assert [] + tail == tail;
    } else {
      assert ([s] + tail)[1..] == tail;
    }
  }

  // ---- Each segment once -------------------------------------------------------------------

  /** Each segment is written by exactly one of the two passes. */
  lemma SelectedSplit(part: Part, segments: seq<Block>)
    requires segments != []
    ensures var s, rest := [segments[0]], segments[1..];
            var ext, chip := Selected(SkipInternal, part, rest), Selected(SkipExternal, part, rest);
            || (Selected(SkipInternal, part, segments) == s + ext && Selected(SkipExternal, part, segments) == chip)
            || (Selected(SkipInternal, part, segments) == ext && Selected(SkipExternal, part, segments) == s + chip)
  {
    assert [] + Selected(SkipInternal, part, segments[1..]) == Selected(SkipInternal, part, segments[1..]);
    assert [] + Selected(SkipExternal, part, segments[1..]) == Selected(SkipExternal, part, segments[1..]);
  }

  lemma MultisetCons(s: Block, rest: seq<Block>)
    ensures multiset([s] + rest) == multiset{s} + multiset(rest)
  {
  }

  lemma HeadAndTail(segments: seq<Block>)
    requires segments != []
    ensures [segments[0]] + segments[1..] == segments
  {
  }

  /** One segment more, in one of two parts. */
  lemma SplitCons(s: Block, a: seq<Block>, b: seq<Block>, a': seq<Block>, b': seq<Block>, rest: seq<Block>)
    requires multiset(a) + multiset(b) == multiset(rest)
    requires (a' == [s] + a && b' == b) || (a' == a && b' == [s] + b)
    ensures multiset(a') + multiset(b') == multiset([s] + rest)
  {
    MultisetCons(s, a);
    MultisetCons(s, b);
    MultisetCons(s, rest);
  }

  /** The two passes together write every segment exactly once. */
  lemma {:induction false} EachSegmentOnce(first: Mode, second: Mode, part: Part, segments: seq<Block>)
    requires first == SkipInternal && second == SkipExternal
    ensures multiset(Selected(first, part, segments)) + multiset(Selected(second, part, segments)) == multiset(segments)
    decreases |segments|
  {
    if segments != [] {
      var rest := segments[1..];
      EachSegmentOnce(first, second, part, rest);
      SelectedSplit(part, segments);
      SplitCons(segments[0], Selected(first, part, rest), Selected(second, part, rest),
                Selected(first, part, segments), Selected(second, part, segments), rest);
      HeadAndTail(segments);
    }
  }

  lemma TraceOfOne(s: Block)
    ensures Trace([s]) == Writes(s.addr, s.data) && TotalLength([s]) == |s.data|
  {
    assert [s][1..] == [];
  }

  lemma {:induction false} PassesTotal(part: Part, segments: seq<Block>)
    ensures TotalLength(Selected(SkipInternal, part, segments)) + TotalLength(Selected(SkipExternal, part, segments)) ==
            TotalLength(segments)
    decreases |segments|
  {
    if segments != [] {
      var s, rest := [segments[0]], segments[1..];
      PassesTotal(part, rest);
      SelectedSplit(part, segments);
      TraceOfOne(segments[0]);
      TotalLengthConcat(s, Selected(SkipInternal, part, rest));
      TotalLengthConcat(s, Selected(SkipExternal, part, rest));
    }
  }

  /** Every segment, each once. */
  ghost predicate WholeFile(written: seq<Block>, segments: seq<Block>) {
    && multiset(written) == multiset(segments) && |written| == |segments|
    && TotalLength(written) == TotalLength(segments)
  }

  lemma WrittenOnce(stage: bool, part: Part, all: seq<Block>)
    ensures WholeFile(WrittenBy(stage, part, all), all)
  {
    assert |multiset(WrittenBy(stage, part, all))| == |WrittenBy(stage, part, all)|;
    assert |multiset(all)| == |all|;
    EachSegmentOnce(SkipInternal, SkipExternal, part, all);
    PassesTotal(part, all);
    TotalLengthConcat(Selected(SkipInternal, part, all), Selected(SkipExternal, part, all));
  }

  // ---- When the order makes no difference --------------------------------------------------

  /** At every address an on-chip segment writes, the last byte the file gives is the last byte the
      on-chip segments give: no external segment leaves another byte there later in the file. */
  predicate ChipLast(part: Part, all: seq<Block>) {
    forall x: nat | x < ADDRESS_SPACE ::
      Last(Trace(Selected(SkipExternal, part, all)), x).None? ||
      Last(Trace(Selected(SkipExternal, part, all)), x) == Last(Trace(all), x)
  }

  /** Where no on-chip segment writes, external ones decide. */
  lemma {:induction false} OffChipLast(part: Part, all: seq<Block>, x: nat)
    requires Last(Trace(Selected(SkipExternal, part, all)), x).None?
    ensures Last(Trace(all), x) == Last(Trace(Selected(SkipInternal, part, all)), x)
    decreases |all|
  {
    if all != [] {
      var w, rest := Writes(all[0].addr, all[0].data), all[1..];
      SelectedTrace(SkipInternal, part, all);
      SelectedTrace(SkipExternal, part, all);
      LastConcat(w, Trace(rest), x);
      LastConcat(w, Trace(Selected(SkipInternal, part, rest)), x);
      LastConcat(w, Trace(Selected(SkipExternal, part, rest)), x);
      OffChipLast(part, rest, x);
    }
  }

  /** What the two passes leave at an address. */
  lemma PassesLast(part: Part, all: seq<Block>, x: nat)
    ensures var chip := Last(Trace(Selected(SkipExternal, part, all)), x);
            Last(Trace(WrittenBy(true, part, all)), x) == if chip.Some? then chip else Last(Trace(all), x)
  {
    var ext, chip := Selected(SkipInternal, part, all), Selected(SkipExternal, part, all);
    TraceConcat(ext, chip);
    LastConcat(Trace(ext), Trace(chip), x);
    if Last(Trace(chip), x).None? {
      OffChipLast(part, all, x);
    }
  }

  /** On-chip writes are writes of the file. */
  lemma {:induction false} ChipInFile(part: Part, all: seq<Block>, x: nat)
    requires Last(Trace(Selected(SkipExternal, part, all)), x).Some?
    ensures Last(Trace(all), x).Some?
    decreases |all|
  {
    if all != [] {
      var w, rest := Writes(all[0].addr, all[0].data), all[1..];
      SelectedTrace(SkipExternal, part, all);
      LastConcat(w, Trace(rest), x);
      LastConcat(w, Trace(Selected(SkipExternal, part, rest)), x);
      if Last(Trace(Selected(SkipExternal, part, rest)), x).Some? {
        ChipInFile(part, rest, x);
      }
    }
  }

  /** Writing the external segments first and the on-chip ones after gives, on any memory, the memory
      of writing them all in file order, if and only if the on-chip segments have the last word. */
  lemma TwoPassesEqualOne(part: Part, m: Contents, all: seq<Block>)
    ensures StoreAll(m, Trace(WrittenBy(true, part, all))) == StoreAll(m, Trace(all)) <==> ChipLast(part, all)
  {
    var two, chip := Trace(WrittenBy(true, part, all)), Trace(Selected(SkipExternal, part, all));
    forall x: nat
      ensures Last(two, x) == if Last(chip, x).Some? then Last(chip, x) else Last(Trace(all), x)
      ensures Last(two, x).Some? <==> Last(Trace(all), x).Some?
      ensures x >= ADDRESS_SPACE ==> Last(chip, x).None?
    {
      PassesLast(part, all, x);
      if Last(chip, x).Some? {
        ChipInFile(part, all, x);
        LastInSpace(Selected(SkipExternal, part, all), x);
      }
    }
    SameStores(m, two, Trace(all));
    if ChipLast(part, all) {
      forall x: nat ensures Last(two, x) == Last(Trace(all), x) {
        assert x < ADDRESS_SPACE ==> Last(chip, x).None? || Last(chip, x) == Last(Trace(all), x);
      }
    } else {
      var x: nat :| x < ADDRESS_SPACE && Last(chip, x).Some? && Last(chip, x) != Last(Trace(all), x);
      assert Last(two, x) != Last(Trace(all), x);
    }
  }

  // ---- Two conditions that are enough ------------------------------------------------------

  /** No external segment overwrites an earlier on-chip one. */
  ghost predicate Reorderable(part: Part, segments: seq<Block>) {
    forall i, j | 0 <= i < j < |segments| ::
      IsExternal(part, segments[i].addr, |segments[i].data|) ||
      !IsExternal(part, segments[j].addr, |segments[j].data|) ||
      Disjoint(Writes(segments[i].addr, segments[i].data), Writes(segments[j].addr, segments[j].data))
  }

  lemma {:induction false} DisjointFromSelected(part: Part, ws: seq<ByteWrite>, segments: seq<Block>)
    requires forall j :: 0 <= j < |segments| && IsExternal(part, segments[j].addr, |segments[j].data|) ==>
               Disjoint(ws, Writes(segments[j].addr, segments[j].data))
    ensures Disjoint(ws, Trace(Selected(SkipInternal, part, segments)))
    decreases |segments|
  {
    if segments != [] {
      var s := segments[0];
      DisjointFromSelected(part, ws, segments[1..]);
      if IsExternal(part, s.addr, |s.data|) {
        assert Selected(SkipInternal, part, segments)[1..] == Selected(SkipInternal, part, segments[1..]);
      } else {
        assert Selected(SkipInternal, part, segments) == Selected(SkipInternal, part, segments[1..]);
      }
    }
  }

  lemma {:induction false} ReorderableAt(part: Part, all: seq<Block>, x: nat)
    requires Reorderable(part, all) && Last(Trace(Selected(SkipExternal, part, all)), x).Some?
    ensures Last(Trace(Selected(SkipExternal, part, all)), x) == Last(Trace(all), x)
    decreases |all|
  {
    if all != [] {
      var s, rest := all[0], all[1..];
      var w := Writes(s.addr, s.data);
      var ext, chip := Selected(SkipInternal, part, rest), Selected(SkipExternal, part, rest);
      SelectedTrace(SkipExternal, part, all);
      LastConcat(w, Trace(rest), x);
      LastConcat(w, Trace(chip), x);
      ReorderableRest(part, all);
      if Last(Trace(chip), x).Some? {
        ReorderableAt(part, rest, x);
      } else {
        OffChipLast(part, rest, x);
        DisjointFromSelected(part, w, rest);
        DisjointLast(w, Trace(ext), x);
      }
    }
  }

  lemma ReorderableRest(part: Part, all: seq<Block>)
    requires Reorderable(part, all) && all != []
    ensures Reorderable(part, all[1..])
    ensures !IsExternal(part, all[0].addr, |all[0].data|) ==>
              forall j :: 0 <= j < |all[1..]| && IsExternal(part, all[1..][j].addr, |all[1..][j].data|) ==>
                Disjoint(Writes(all[0].addr, all[0].data), Writes(all[1..][j].addr, all[1..][j].data))
  {
    assert forall i :: 0 <= i < |all[1..]| ==> all[1..][i] == all[i + 1];
  }

  /** If no external segment overwrites an earlier on-chip one, the order makes no difference. */
  lemma ReorderableIsEnough(part: Part, all: seq<Block>)
    requires Reorderable(part, all)
    ensures ChipLast(part, all)
  {
    forall x: nat | x < ADDRESS_SPACE && Last(Trace(Selected(SkipExternal, part, all)), x).Some?
      ensures Last(Trace(Selected(SkipExternal, part, all)), x) == Last(Trace(all), x)
    {
      ReorderableAt(part, all, x);
    }
  }

  lemma {:induction false} WriteInTrace(segments: seq<Block>, j: nat, k: nat) returns (p: nat)
    requires j < |segments| && k < |segments[j].data|
    ensures p < |Trace(segments)| && Trace(segments)[p] == Writes(segments[j].addr, segments[j].data)[k]
    decreases j
  {
    if j == 0 {
      p := k;
    } else {
      p := WriteInTrace(segments[1..], j - 1, k);
      p := p + |segments[0].data|;
    }
  }

  lemma DisjointHalves(w: seq<ByteWrite>, t: seq<ByteWrite>, a: nat, p: nat)
    requires NoAddressTwice(w + t) && a < |w| && p < |t|
    ensures w[a].at != t[p].at
  {
    assert (w + t)[a] == w[a] && (w + t)[|w| + p] == t[p];
  }

  lemma HeadDisjointAt(segments: seq<Block>, j: nat, a: nat, k: nat)
    requires 0 < j < |segments| && NoAddressTwice(Trace(segments))
    requires a < |segments[0].data| && k < |segments[j].data|
    ensures Writes(segments[0].addr, segments[0].data)[a].at != Writes(segments[j].addr, segments[j].data)[k].at
  {
    var p := WriteInTrace(segments[1..], j - 1, k);
    DisjointHalves(Writes(segments[0].addr, segments[0].data), Trace(segments[1..]), a, p);
  }

  lemma HeadDisjoint(segments: seq<Block>, j: nat)
    requires 0 < j < |segments| && NoAddressTwice(Trace(segments))
    ensures Disjoint(Writes(segments[0].addr, segments[0].data), Writes(segments[j].addr, segments[j].data))
  {
    forall a, k | 0 <= a < |segments[0].data| && 0 <= k < |segments[j].data|
      ensures Writes(segments[0].addr, segments[0].data)[a].at != Writes(segments[j].addr, segments[j].data)[k].at
    {
      HeadDisjointAt(segments, j, a, k);
    }
  }

  lemma {:induction false} DisjointIsReorderable(part: Part, segments: seq<Block>)
    requires NoAddressTwice(Trace(segments))
    ensures Reorderable(part, segments)
    decreases |segments|
  {
    if segments != [] {
      var w, t := Writes(segments[0].addr, segments[0].data), Trace(segments[1..]);
      assert Trace(segments) == w + t;
      assert forall p :: 0 <= p < |t| ==> t[p] == Trace(segments)[|w| + p];
      DisjointIsReorderable(part, segments[1..]);
      forall j | 0 < j < |segments|
        ensures Disjoint(Writes(segments[0].addr, segments[0].data), Writes(segments[j].addr, segments[j].data))
      {
        HeadDisjoint(segments, j);
      }
      assert forall j :: 0 < j < |segments| ==> segments[j] == segments[1..][j - 1];
    }
  }

  /** A file that names no address twice gives segments that may be reordered. */
  lemma DisjointRecordsReorderable(part: Part, records: seq<Block>)
    requires Aligned(EMPTY_MERGER, records) && NoAddressTwice(Trace(records))
    ensures Reorderable(part, Segments(records)) && ChipLast(part, Segments(records))
  {
    MergeKeepsTrace(records);
    DisjointIsReorderable(part, Segments(records));
    ReorderableIsEnough(part, Segments(records));
  }

  // ---- Two files ---------------------------------------------------------------------------

  /** What the passes select from an on-chip segment and a later external one. */
  lemma SelectedPair(part: Part, s: Block, t: Block)
    requires !IsExternal(part, s.addr, |s.data|) && IsExternal(part, t.addr, |t.data|)
    ensures Selected(SkipInternal, part, [s, t]) == [t] && Selected(SkipExternal, part, [s, t]) == [s]
  {
    var all := [s, t];
    assert all[1..] == [t] && all[1..][1..] == [];
    assert Selected(SkipInternal, part, all[1..]) == [t];
    assert Selected(SkipExternal, part, all[1..]) == [];
  }

  /** Two records at one address are not merged. */
  lemma SameAddressSegments(s: Block, t: Block)
    requires s.addr == t.addr < ADDRESS_SPACE && s.data != [] && t.data != []
    ensures Segments([s, t]) == [s, t]
  {
    var m := Merger(false, s.addr, s.data);
    assert [] + s.data == s.data && [] + t.data == t.data;
    assert Absorb(EMPTY_MERGER, s) == m && Emit(EMPTY_MERGER, s) == [];
    assert Absorb(m, t) == Merger(false, t.addr, t.data) && Emit(m, t) == [s];
    assert [s, t][1..] == [t] && [t][1..] == [];
    SegmentsStep(EMPTY_MERGER, [s, t]);
    SegmentsStep(m, [t]);
    assert SegmentsFrom(Absorb(m, t), []) == [t];
  }

  /** A file the two passes get wrong: on an FX2, a record that straddles the end of on-chip memory is
      written first even if the file gives it last, and the byte at 0x1fff is then 1 and not 2. */
  lemma OverlapIsReordered(m: Contents)
    ensures var all := [Block(0x1fff, [1]), Block(0x1fff, [2, 2])];
            && Segments(all) == all && WrittenBy(true, FX2, all) == [all[1], all[0]] && !ChipLast(FX2, all)
            && 0x1fff in StoreAll(m, Trace(all)) && StoreAll(m, Trace(all))[0x1fff] == 2
            && var two := StoreAll(m, Trace(WrittenBy(true, FX2, all))); 0x1fff in two && two[0x1fff] == 1
  {
    var s, t := Block(0x1fff, [1]), Block(0x1fff, [2, 2]);
    SameAddressSegments(s, t);
    SelectedPair(FX2, s, t);
    LastOfPair(s, t, 0x1fff);
    LastOfPair(t, s, 0x1fff);
    StoredLast(m, Trace([s, t]), 0x1fff);
    StoredLast(m, Trace([t, s]), 0x1fff);
    assert [t] + [s] == [t, s];
    TwoPassesEqualOne(FX2, m, [s, t]);
  }

  /** The second of two blocks at an address has the last word there. */
  lemma LastOfPair(s: Block, t: Block, x: nat)
    requires x == t.addr < ADDRESS_SPACE && 1 <= |t.data| <= 2
    ensures Last(Trace([s, t]), x) == Some(t.data[0])
  {
    assert [s, t][1..] == [t];
    LastConcat(Writes(s.addr, s.data), Trace([t]), x);
    LastOfOne(t, x);
  }

  lemma LastOfOne(t: Block, x: nat)
    requires x == t.addr < ADDRESS_SPACE && 1 <= |t.data| <= 2
    ensures Last(Trace([t]), x) == Some(t.data[0])
  {
    var w := Writes(t.addr, t.data);
    TraceOfOne(t);
    assert w[0] == ByteWrite(x, t.data[0]);
    if |t.data| == 2 {
      var tail := w[1..];
      assert tail[0] == w[1] && w[1].at != x && tail[1..] == [];
      assert Last(tail, x) == None;
    } else {
      assert w[1..] == [];
    }
  }

  /** An overlap the passes get right: the straddling record repeats the byte. */
  lemma HarmlessOverlap()
    ensures var all := [Block(0x1fff, [1]), Block(0x1fff, [1, 2])];
            Segments(all) == all && !Reorderable(FX2, all) && ChipLast(FX2, all)
  {
    var s, t := Block(0x1fff, [1]), Block(0x1fff, [1, 2]);
    SameAddressSegments(s, t);
    SelectedPair(FX2, s, t);
    assert Writes(s.addr, s.data)[0].at == Writes(t.addr, t.data)[0].at;
    assert [s, t][0] == s && [s, t][1] == t;
    forall x: nat ensures Last(Trace([s]), x).Some? ==> Last(Trace([s]), x) == Last(Trace([s, t]), x) {
      LastTouches(Trace([s]), x);
      TraceOfOne(s);
      LastOfOne(s, 0x1fff);
      LastOfPair(s, t, 0x1fff);
    }
  }
}
