/**
 * The two-board patcher (`fix_led_fur602.py`): a fixed `gpios` table per
 * board, one tree chosen by the presence of a `.../green` LED node, the
 * mandatory-guard patch, a digest record for the changed tree, and the same
 * FIT digest sync as the profile-driven patcher. The scanner, the token
 * walkers and the FIT grouping are the ones modelled for `fix_led.py`.
 */
module Fur602 {
  import opened Wrappers
  import opened Seqs
  import opened Bytes
  import opened FdtScan
  import opened FdtWalk
  import opened GpioPatch
  import opened FitHashes
  import opened FitSync
  import opened Profile

  const LEDS_PATH: Name := [SLASH, 0x6C, 0x65, 0x64, 0x73]              // "/leds"
  const GREEN_SUFFIX: Name := [SLASH, 0x67, 0x72, 0x65, 0x65, 0x6E]    // "/green"
  const GREEN_PATH: Name := LEDS_PATH + GREEN_SUFFIX                    // "/leds/green"
  const RED_PATH: Name := LEDS_PATH + [SLASH, 0x72, 0x65, 0x64]         // "/leds/red"
  const GPIOS: Name := [0x67, 0x70, 0x69, 0x6F, 0x73]                  // "gpios"

  /** The `--board` choice. */
  datatype Board = Fur602 | KomiA31

  /** One row of a board table: the node whose `gpios` middle cell goes from `oldSecond` to `newSecond`. */
  datatype GpioMapping = GpioMapping(node: Name, oldSecond: nat, newSecond: nat)

  /** The board-specific mapping tables. */
  function BoardMapping(b: Board): seq<GpioMapping>
  {
    match b
    case KomiA31 => [GpioMapping(GREEN_PATH, 0x04, 0x08), GpioMapping(RED_PATH, 0x05, 0x22)]
    case Fur602 => [GpioMapping(GREEN_PATH, 0x04, 0x08), GpioMapping(RED_PATH, 0x05, 0x0D)]
  }

  /**
   * Both boards move the green LED from line 4 to 8 and the red LED off line
   * 5 (to 0x22 on komi-a31, to 0x0D on fur602). The two rows name distinct
   * nodes, and every row is patchable: its old and new values differ and fit
   * in 32 unsigned bits.
   */
  lemma BoardTables(b: Board)
    ensures var m := BoardMapping(b);
      |m| == 2 && m[0] == GpioMapping(GREEN_PATH, 4, 8)
      && m[1].node == RED_PATH && m[1].oldSecond == 5
      && m[1].newSecond == (if b == KomiA31 then 0x22 else 0x0D)
      && m[0].node != m[1].node
      && forall i :: 0 <= i < |m| ==> m[i].oldSecond != m[i].newSecond && m[i].newSecond < TWO32
  {
    assert GREEN_PATH[6] != RED_PATH[6];
  }

  // ---------------------------------------------------------------------------
  // Choosing the tree
  // ---------------------------------------------------------------------------

  /** A tree has a property whose node path ends in `/green`. */
  predicate HasGreen(ps: seq<PropertyRef>)
  {
    exists p :: p in ps && EndsWith(p.nodePath, GREEN_SUFFIX)
  }

  /** The per-tree green flags collected before any patching; `None` when parsing a tree raises. */
  function LedPresence(data: seq<byte>, dtbs: seq<Hit>): (r: Option<seq<bool>>)
    ensures r.Some? ==> |r.value| == |dtbs|
  {
    if forall i :: 0 <= i < |dtbs| ==> Properties(data, dtbs[i].offset, dtbs[i].header).Some?
    then Some(seq(|dtbs|, i requires 0 <= i < |dtbs| => HasGreen(Properties(data, dtbs[i].offset, dtbs[i].header).value)))
    else None
  }

  /** The green test on one parsed tree. */
  method GreenIn(ps: seq<PropertyRef>) returns (b: bool)
    ensures b == HasGreen(ps)
  {
    b := false;
    for k := 0 to |ps|
      invariant b == exists j :: 0 <= j < k && EndsWith(ps[j].nodePath, GREEN_SUFFIX)
    {
      if EndsWith(ps[k].nodePath, GREEN_SUFFIX) {
        b := true;
      }
    }
  }

  /** The `led_presence` loop. */
  method CollectLedPresence(data: seq<byte>, dtbs: seq<Hit>) returns (r: Option<seq<bool>>)
    ensures r == LedPresence(data, dtbs)
  {
    var flags: seq<bool> := [];
    for i := 0 to |dtbs|
      invariant |flags| == i
      invariant forall j :: 0 <= j < i ==> (Properties(data, dtbs[j].offset, dtbs[j].header).Some?
        && flags[j] == HasGreen(Properties(data, dtbs[j].offset, dtbs[j].header).value))
    {
      var props := ParseProperties(data, dtbs[i].offset, dtbs[i].header);
      if props.None? {
        return None;
      }
      var g := GreenIn(props.value);
      flags := flags + [g];
    }
    assert flags == seq(|dtbs|, i requires 0 <= i < |dtbs| => HasGreen(Properties(data, dtbs[i].offset, dtbs[i].header).value));
    return Some(flags);
  }

  /** `[i for i, g in led_presence if g]` over the first `n` trees. */
  function GreenIndices(flags: seq<bool>, n: nat): seq<nat>
    requires n <= |flags|
  {
    if n == 0 then []
    else GreenIndices(flags, n - 1) + if flags[n - 1] then [n - 1] else []
  }

  /** The candidates are exactly the green trees, in ascending order. */
  lemma {:induction false} GreenIndicesSpec(flags: seq<bool>, n: nat)
    requires n <= |flags|
    ensures var c := GreenIndices(flags, n);
      (forall i: nat :: i in c <==> (i < n && flags[i]))
      && forall j, k :: 0 <= j < k < |c| ==> c[j] < c[k]
  {
    if n > 0 {
      var prev := GreenIndices(flags, n - 1);
      GreenIndicesSpec(flags, n - 1);
      assert forall j :: 0 <= j < |prev| ==> prev[j] < n - 1 by {
        forall j | 0 <= j < |prev|
          ensures prev[j] < n - 1
        {
          assert prev[j] in prev;
        }
      }
    }
  }

  /** The target index: the explicit one if in range (`None`: rejected), else the first green tree, else 0. */
  function ChooseTarget(flags: seq<bool>, dtbIndex: Option<int>): (r: Option<nat>)
    requires |flags| > 0
    ensures r.Some? ==> r.value < |flags|
  {
    GreenIndicesSpec(flags, |flags|);
    match dtbIndex
    case Some(i) => if i < 0 || i >= |flags| then None else Some(i)
    case None =>
      var cand := GreenIndices(flags, |flags|);
      assert cand != [] ==> cand[0] in cand;
      Some(if cand != [] then cand[0] else 0)
  }

  /**
   * An explicit index outside `[0, count)` is rejected and one inside is
   * taken as is; without one the target is the first tree with a `/green`
   * node, or tree 0 when there is none.
   */
  lemma ChooseTargetSpec(flags: seq<bool>, dtbIndex: Option<int>)
    requires |flags| > 0
    ensures dtbIndex.Some? ==>
      (ChooseTarget(flags, dtbIndex).None? <==> dtbIndex.value < 0 || dtbIndex.value >= |flags|)
      && (ChooseTarget(flags, dtbIndex).Some? ==> ChooseTarget(flags, dtbIndex).value == dtbIndex.value)
    ensures dtbIndex.None? ==> (ChooseTarget(flags, dtbIndex).Some?
      && var i := ChooseTarget(flags, dtbIndex).value;
      i < |flags| && (forall j :: 0 <= j < i ==> !flags[j])
      && (flags[i] || (i == 0 && forall j :: 0 <= j < |flags| ==> !flags[j])))
  {
    if dtbIndex.None? {
      var cand := GreenIndices(flags, |flags|);
      GreenIndicesSpec(flags, |flags|);
      if cand != [] {
        assert cand[0] in cand;
        forall j: nat | j < cand[0]
          ensures j !in cand
        {
          forall t | 0 <= t < |cand|
            ensures cand[t] != j
          {
            if t > 0 {
              assert cand[0] < cand[t];
            }
          }
        }
      }
    }
  }

  method ChooseTargetIndex(flags: seq<bool>, dtbIndex: Option<int>) returns (r: Option<nat>)
    requires |flags| > 0
    ensures r == ChooseTarget(flags, dtbIndex)
  {
    if dtbIndex.Some? {
      if dtbIndex.value < 0 || dtbIndex.value >= |flags| {
        return None;
      }
      return Some(dtbIndex.value);
    }
    var cand: seq<nat> := [];
    for i := 0 to |flags|
      invariant cand == GreenIndices(flags, i)
    {
      if flags[i] {
        cand := cand + [i];
      }
    }
    GreenIndicesSpec(flags, |flags|);
    if cand != [] {
      assert cand[0] in cand;
      return Some(cand[0]);
    }
    return Some(0);
  }

  // ---------------------------------------------------------------------------
  // The board mapping loop
  // ---------------------------------------------------------------------------

  /** What one table row does to the tree's `gpios` at `row.node`. */
  function RowOutcome(buf: seq<byte>, pm: map<PropKey, PropertyRef>, row: GpioMapping): PatchOutcome
  {
    if (row.node, GPIOS) !in pm then Unchanged
    else GpiosOutcome(buf, pm[(row.node, GPIOS)], row.oldSecond, row.newSecond)
  }

  function AfterRow(buf: seq<byte>, pm: map<PropKey, PropertyRef>, row: GpioMapping): (r: seq<byte>)
    ensures |r| == |buf|
  {
    if RowOutcome(buf, pm, row) == Changed then WithSecondCell(buf, pm[(row.node, GPIOS)], row.newSecond) else buf
  }

  function RowsFrom(buf: seq<byte>, pm: map<PropKey, PropertyRef>, rows: seq<GpioMapping>): (r: MapResult)
    ensures |r.buf| == |buf| && r.changes <= |rows|
    decreases |rows|
  {
    if rows == [] then MapResult(buf, 0, false)
    else
      var o := RowOutcome(buf, pm, rows[0]);
      if o == Raised then MapResult(buf, 0, true)
      else
        var rest := RowsFrom(AfterRow(buf, pm, rows[0]), pm, rows[1..]);
        MapResult(rest.buf, rest.changes + if o == Changed then 1 else 0, rest.raised)
  }

  lemma RowsUnfold(buf: seq<byte>, pm: map<PropKey, PropertyRef>, rows: seq<GpioMapping>, i: nat)
    requires i < |rows|
    ensures var o := RowOutcome(buf, pm, rows[i]);
      var rest := RowsFrom(AfterRow(buf, pm, rows[i]), pm, rows[i + 1..]);
      RowsFrom(buf, pm, rows[i..]) ==
        if o == Raised then MapResult(buf, 0, true)
        else MapResult(rest.buf, rest.changes + if o == Changed then 1 else 0, rest.raised)
  {
    assert rows[i..][1..] == rows[i + 1..];
  }

  /** The `for node, old_val, new_val in mapping` loop, in place. */
  method ApplyRows(data: array<byte>, pm: map<PropKey, PropertyRef>, rows: seq<GpioMapping>) returns (changes: nat, raised: bool)
    modifies data
    ensures MapResult(data[..], changes, raised) == RowsFrom(old(data[..]), pm, rows)
  {
    ghost var final := RowsFrom(data[..], pm, rows);
    changes := 0;
    assert rows[0..] == rows;
    for i := 0 to |rows|
      invariant var f := RowsFrom(data[..], pm, rows[i..]);
        f.buf == final.buf && changes + f.changes == final.changes && f.raised == final.raised
    {
      RowsUnfold(data[..], pm, rows, i);
      var key := (rows[i].node, GPIOS);
      if key in pm {
        var o := PatchGpios(data, pm[key], rows[i].oldSecond, rows[i].newSecond);
        if o == Raised {
          return changes, true;
        }
        if o == Changed {
          changes := changes + 1;
        }
      }
    }
    raised := false;
  }

  /** A loop that patched nothing left the buffer as it was. */
  lemma {:induction false} RowsNoChange(buf: seq<byte>, pm: map<PropKey, PropertyRef>, rows: seq<GpioMapping>)
    requires RowsFrom(buf, pm, rows).changes == 0
    ensures RowsFrom(buf, pm, rows).buf == buf
    decreases |rows|
  {
    if rows != [] && RowOutcome(buf, pm, rows[0]) != Raised {
      RowsNoChange(AfterRow(buf, pm, rows[0]), pm, rows[1..]);
    }
  }

  /**
   * Every byte the loop changes lies in the middle cell of a `gpios` value of
   * one of the table's nodes.
   */
  lemma {:induction false} RowsFrame(buf: seq<byte>, pm: map<PropKey, PropertyRef>, rows: seq<GpioMapping>, k: nat)
    requires k < |buf| && RowsFrom(buf, pm, rows).buf[k] != buf[k]
    ensures exists i :: (0 <= i < |rows| && (rows[i].node, GPIOS) in pm
      && pm[(rows[i].node, GPIOS)].valueOffset + 4 <= k < pm[(rows[i].node, GPIOS)].valueOffset + 8)
    decreases |rows|
  {
    if rows != [] && RowOutcome(buf, pm, rows[0]) != Raised {
      var next := AfterRow(buf, pm, rows[0]);
      if next[k] != buf[k] {
        SecondCellFrame(buf, pm[(rows[0].node, GPIOS)], rows[0].newSecond);
      } else {
        RowsFrame(next, pm, rows[1..], k);
        var i :| 0 <= i < |rows[1..]| && (rows[1..][i].node, GPIOS) in pm
          && pm[(rows[1..][i].node, GPIOS)].valueOffset + 4 <= k < pm[(rows[1..][i].node, GPIOS)].valueOffset + 8;
        assert rows[i + 1] == rows[1..][i];
      }
    }
  }

  // ---------------------------------------------------------------------------
  // The run
  // ---------------------------------------------------------------------------

  /** How `main` ends once the firmware is read: an exit code and the image, or an escaped exception. */
  datatype RunResult = Exit(code: nat, buf: seq<byte>) | Crashed

  /** The chosen tree after the mapping loop: the image, the cells patched, and the digest record if the tree's bytes changed. */
  datatype Patched = Patched(buf: seq<byte>, changes: nat, records: seq<DigestRecord>)

  /** Parsing the chosen tree `h` and patching its rows; `None` when either raises. */
  function PatchRowsSpec(buf: seq<byte>, h: Hit, board: Board, d: Digester): Option<Patched>
  {
    match Properties(buf, h.offset, h.header)
    case None => None
    case Some(props) =>
      var mr := RowsFrom(buf, PropMap(props), BoardMapping(board));
      if mr.raised then None
      else
        var before, after := TreeBytes(buf, h), TreeBytes(mr.buf, h);
        var records := if mr.changes > 0 && after != before then [RecordFor(d, before, after)] else [];
        Some(Patched(mr.buf, mr.changes, records))
  }

  /** The tree patched, its digest record if its bytes changed, and the FIT sync. */
  function PatchChosen(buf: seq<byte>, dtbs: seq<Hit>, idx: nat, board: Board, noFitHash: bool, d: Digester): RunResult
    requires idx < |dtbs|
  {
    match PatchRowsSpec(buf, dtbs[idx], board, d)
    case None => Crashed
    case Some(pt) =>
      if pt.changes == 0 then Exit(2, pt.buf)
      else
        match FitStep(pt.buf, dtbs, pt.records, noFitHash)
        case None => Crashed
        case Some(out) => Exit(0, out)
  }

  /**
   * `main` from the scan to the point where the output is written: 1 with no
   * tree or a rejected `--dtb-index`, 2 when nothing was patched, 0 with the
   * patched image otherwise.
   */
  function RunSpec(buf: seq<byte>, board: Board, dtbIndex: Option<int>, noFitHash: bool, d: Digester): RunResult
  {
    var dtbs := HitsFrom(buf, 0);
    if dtbs == [] then Exit(1, buf)
    else
      match LedPresence(buf, dtbs)
      case None => Crashed
      case Some(flags) =>
        match ChooseTarget(flags, dtbIndex)
        case None => Exit(1, buf)
        case Some(idx) => PatchChosen(buf, dtbs, idx, board, noFitHash, d)
  }

  /** On the chosen tree: exit code 2 (nothing patched) leaves the image untouched. */
  lemma PatchChosenUntouched(buf: seq<byte>, dtbs: seq<Hit>, idx: nat, board: Board, noFitHash: bool, d: Digester)
    requires idx < |dtbs|
    requires PatchChosen(buf, dtbs, idx, board, noFitHash, d).Exit?
    ensures var r := PatchChosen(buf, dtbs, idx, board, noFitHash, d);
      r.code != 0 ==> r.code == 2 && r.buf == buf
  {
    var h := dtbs[idx];
    var props := Properties(buf, h.offset, h.header).value;
    if RowsFrom(buf, PropMap(props), BoardMapping(board)).changes == 0 {
      RowsNoChange(buf, PropMap(props), BoardMapping(board));
    }
  }

  /**
   * Exit code 2 leaves the image untouched, and so do the early exits with
   * code 1: no FIT work happens unless a cell was patched.
   */
  lemma RunUntouchedUnlessPatched(buf: seq<byte>, board: Board, dtbIndex: Option<int>, noFitHash: bool, d: Digester)
    requires RunSpec(buf, board, dtbIndex, noFitHash, d).Exit?
    ensures var r := RunSpec(buf, board, dtbIndex, noFitHash, d);
      r.code != 0 ==> r.buf == buf
  {
    var dtbs := HitsFrom(buf, 0);
    if dtbs != [] {
      var flags := LedPresence(buf, dtbs).value;
      if ChooseTarget(flags, dtbIndex).Some? {
        PatchChosenUntouched(buf, dtbs, ChooseTarget(flags, dtbIndex).value, board, noFitHash, d);
      }
    }
  }

  /** The `gpios` property a row finds in the index is one of the tree's properties, under the row's node. */
  lemma RowCell(props: seq<PropertyRef>, row: GpioMapping, k: nat)
    requires (row.node, GPIOS) in PropMap(props)
    requires PropMap(props)[(row.node, GPIOS)].valueOffset + 4 <= k < PropMap(props)[(row.node, GPIOS)].valueOffset + 8
    ensures exists p :: (p in props && p.nodePath == row.node && p.name == GPIOS
      && p.valueOffset + 4 <= k < p.valueOffset + 8)
  {
    PropMapMember(props, (row.node, GPIOS));
    assert PropMap(props)[(row.node, GPIOS)] in props;
  }

  /**
   * The mapping loop on tree `h` changes only middle cells of the `gpios`
   * values of its `/leds/green` and `/leds/red` nodes.
   */
  lemma PatchRowsFrame(buf: seq<byte>, h: Hit, board: Board, d: Digester, k: nat)
    requires PatchRowsSpec(buf, h, board, d).Some?
    requires k < |buf| && PatchRowsSpec(buf, h, board, d).value.buf[k] != buf[k]
    ensures Properties(buf, h.offset, h.header).Some?
    ensures exists p :: (p in Properties(buf, h.offset, h.header).value
      && (p.nodePath == GREEN_PATH || p.nodePath == RED_PATH) && p.name == GPIOS
      && p.valueOffset + 4 <= k < p.valueOffset + 8)
  {
    var props := Properties(buf, h.offset, h.header).value;
    var pm, rows := PropMap(props), BoardMapping(board);
    assert PatchRowsSpec(buf, h, board, d).value.buf == RowsFrom(buf, pm, rows).buf;
    RowsFrame(buf, pm, rows, k);
    var i :| 0 <= i < |rows| && (rows[i].node, GPIOS) in pm
      && pm[(rows[i].node, GPIOS)].valueOffset + 4 <= k < pm[(rows[i].node, GPIOS)].valueOffset + 8;
    BoardTables(board);
    assert rows[i].node == GREEN_PATH || rows[i].node == RED_PATH;
    RowCell(props, rows[i], k);
  }

  /**
   * With `--no-fit-hash`, patching the chosen tree changes only middle cells
   * of the `gpios` values of its `/leds/green` and `/leds/red` nodes.
   */
  lemma PatchChosenNoFitFrame(buf: seq<byte>, dtbs: seq<Hit>, idx: nat, board: Board, d: Digester, k: nat)
    requires idx < |dtbs|
    requires PatchChosen(buf, dtbs, idx, board, true, d).Exit?
    requires k < |buf| && PatchChosen(buf, dtbs, idx, board, true, d).buf[k] != buf[k]
    ensures Properties(buf, dtbs[idx].offset, dtbs[idx].header).Some?
    ensures exists p :: (p in Properties(buf, dtbs[idx].offset, dtbs[idx].header).value
      && (p.nodePath == GREEN_PATH || p.nodePath == RED_PATH) && p.name == GPIOS
      && p.valueOffset + 4 <= k < p.valueOffset + 8)
  {
    assert PatchChosen(buf, dtbs, idx, board, true, d).buf == PatchRowsSpec(buf, dtbs[idx], board, d).value.buf;
    PatchRowsFrame(buf, dtbs[idx], board, d, k);
  }

  /** With `--no-fit-hash`, a successful run changes only those cells of one tree. */
  lemma RunNoFitFrame(buf: seq<byte>, board: Board, dtbIndex: Option<int>, d: Digester, k: nat)
    requires RunSpec(buf, board, dtbIndex, true, d).Exit?
    requires k < |buf| && RunSpec(buf, board, dtbIndex, true, d).buf[k] != buf[k]
    ensures HitsFrom(buf, 0) != [] && LedPresence(buf, HitsFrom(buf, 0)).Some?
    ensures ChooseTarget(LedPresence(buf, HitsFrom(buf, 0)).value, dtbIndex).Some?
    ensures var dtbs := HitsFrom(buf, 0);
      var idx := ChooseTarget(LedPresence(buf, dtbs).value, dtbIndex).value;
      idx < |dtbs| && Properties(buf, dtbs[idx].offset, dtbs[idx].header).Some?
      && exists p :: (p in Properties(buf, dtbs[idx].offset, dtbs[idx].header).value
        && (p.nodePath == GREEN_PATH || p.nodePath == RED_PATH) && p.name == GPIOS
        && p.valueOffset + 4 <= k < p.valueOffset + 8)
  {
    var dtbs := HitsFrom(buf, 0);
    var flags := LedPresence(buf, dtbs).value;
    var idx := ChooseTarget(flags, dtbIndex).value;
    PatchChosenNoFitFrame(buf, dtbs, idx, board, d, k);
  }

  /** `main` from the scan to the output, in place; `None` when an exception escapes. */
  method Run(data: array<byte>, board: Board, dtbIndex: Option<int>, noFitHash: bool, d: Digester) returns (r: Option<nat>)
    modifies data
    ensures var spec := RunSpec(old(data[..]), board, dtbIndex, noFitHash, d);
      r.Some? == spec.Exit? && (r.Some? ==> r.value == spec.code && data[..] == spec.buf)
  {
    var dtbs := ScanDtbs(data[..]);
    if dtbs == [] {
      return Some(1);
    }
    var presence := CollectLedPresence(data[..], dtbs);
    if presence.None? {
      return None;
    }
    var target := ChooseTargetIndex(presence.value, dtbIndex);
    if target.None? {
      return Some(1);
    }
    r := RunChosen(data, dtbs, target.value, board, noFitHash, d);
  }

  /** Parsing the chosen tree and patching its rows, in place. */
  method PatchRows(data: array<byte>, h: Hit, board: Board, d: Digester) returns (r: Option<Patched>)
    modifies data
    ensures r == PatchRowsSpec(old(data[..]), h, board, d)
    ensures r.Some? ==> data[..] == r.value.buf
  {
    var props := ParseProperties(data[..], h.offset, h.header);
    if props.None? {
      return None;
    }
    ghost var buf := data[..];
    var pm := PropMap(props.value);
    var original := Slice(data[..], h.offset, h.offset + h.header.TotalSize());
    assert original == TreeBytes(buf, h);
    ghost var mr := RowsFrom(buf, pm, BoardMapping(board));
    var totalChanges, raised := ApplyRows(data, pm, BoardMapping(board));
    assert data[..] == mr.buf && totalChanges == mr.changes && raised == mr.raised;
    if raised {
      return None;
    }
    var records: seq<DigestRecord> := [];
    if totalChanges > 0 {
      var newSlice := Slice(data[..], h.offset, h.offset + h.header.TotalSize());
      assert newSlice == TreeBytes(mr.buf, h);
      if newSlice != original {
        records := [RecordFor(d, original, newSlice)];
      }
    }
    return Some(Patched(data[..], totalChanges, records));
  }

  /** The patch, record and FIT steps for the chosen tree, in place. */
  method RunChosen(data: array<byte>, dtbs: seq<Hit>, idx: nat, board: Board, noFitHash: bool, d: Digester) returns (r: Option<nat>)
    requires idx < |dtbs|
    modifies data
    ensures var spec := PatchChosen(old(data[..]), dtbs, idx, board, noFitHash, d);
      r.Some? == spec.Exit? && (r.Some? ==> r.value == spec.code && data[..] == spec.buf)
  {
    var patched := PatchRows(data, dtbs[idx], board, d);
    if patched.None? {
      return None;
    }
    if patched.value.changes == 0 {
      return Some(2);
    }
    var ok := FitStepInPlace(data, dtbs, patched.value.records, noFitHash);
    if !ok {
      return None;
    }
    return Some(0);
  }
}
