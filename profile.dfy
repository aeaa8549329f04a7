/**
 * `process_single_profile`: applies one profile's targets to the firmware
 * image in place. Each target picks a tree (its own index, the command-line
 * index, or the first tree with a property under one of the mapped nodes),
 * patches the mapped `gpios` cells, and records the tree's digests when its
 * bytes changed; the recorded digests are then synchronised into the FIT
 * image tree.
 */
module Profile {
  import opened Wrappers
  import opened Seqs
  import opened Bytes
  import opened FdtHeader
  import opened FdtScan
  import opened FdtWalk
  import opened GpioPatch
  import opened FitHashes
  import opened FitSync

  /** The only mapping kind the patcher applies. */
  const U32_TRIPLET: string := "u32_triplet"

  /** `MappingRule`: which property to patch, how, and from which expected value to which new one. */
  datatype MappingRule = MappingRule(node: Name, property: Name, kind: string, secondFrom: Option<int>, secondTo: Option<int>)

  /** `TargetConfig`: the tree to patch, if fixed, and the mappings to apply to it. */
  datatype TargetConfig = TargetConfig(dtbIndex: Option<int>, mappings: seq<MappingRule>)

  // ---------------------------------------------------------------------------
  // The (node path, name) index of a tree's properties
  // ---------------------------------------------------------------------------

  type PropKey = (Name, Name)

  function KeyOf(p: PropertyRef): PropKey { (p.nodePath, p.name) }

  /** `{(p.node_path, p.name): p for p in props}`. */
  function PropMap(props: seq<PropertyRef>): map<PropKey, PropertyRef>
  {
    if props == [] then map[]
    else
      var last := props[|props| - 1];
      PropMap(props[..|props| - 1])[KeyOf(last) := last]
  }

  /**
   * A key is present exactly when some property has it, and it maps to the
   * last such property: a later duplicate overwrites an earlier one.
   */
  lemma {:induction false} PropMapLastWins(props: seq<PropertyRef>, key: PropKey)
    ensures key in PropMap(props) <==> exists i :: 0 <= i < |props| && KeyOf(props[i]) == key
    ensures key in PropMap(props) ==> exists i :: (0 <= i < |props| && props[i] == PropMap(props)[key]
      && KeyOf(props[i]) == key && forall j :: i < j < |props| ==> KeyOf(props[j]) != key)
    decreases |props|
  {
    if props != [] {
      var init, last := props[..|props| - 1], props[|props| - 1];
      PropMapLastWins(init, key);
      assert forall i :: 0 <= i < |init| ==> init[i] == props[i];
      if KeyOf(last) != key && key in PropMap(props) {
        var i :| 0 <= i < |init| && init[i] == PropMap(init)[key]
          && KeyOf(init[i]) == key && forall j :: i < j < |init| ==> KeyOf(init[j]) != key;
        assert props[i] == PropMap(props)[key];
      }
    }
  }

  /** What the index holds under a key is one of the properties, and it has that key. */
  lemma PropMapMember(props: seq<PropertyRef>, key: PropKey)
    requires key in PropMap(props)
    ensures PropMap(props)[key] in props && KeyOf(PropMap(props)[key]) == key
  {
    PropMapLastWins(props, key);
    var i :| 0 <= i < |props| && props[i] == PropMap(props)[key] && KeyOf(props[i]) == key
      && forall j :: i < j < |props| ==> KeyOf(props[j]) != key;
  }

  // ---------------------------------------------------------------------------
  // The mapping loop
  // ---------------------------------------------------------------------------

  /** The property a rule names, if the tree has it. */
  function RuleTarget(pm: map<PropKey, PropertyRef>, rule: MappingRule): Option<PropertyRef>
  {
    if (rule.node, rule.property) in pm then Some(pm[(rule.node, rule.property)]) else None
  }

  /** What one rule does: skipped (missing property, other kind, no new value) or the triplet patch's outcome. */
  function RuleOutcome(buf: seq<byte>, pm: map<PropKey, PropertyRef>, rule: MappingRule): PatchOutcome
  {
    match RuleTarget(pm, rule)
    case None => Unchanged
    case Some(p) =>
      if rule.kind != U32_TRIPLET || rule.secondTo.None? then Unchanged
      else TripletOutcome(buf, p, rule.secondFrom, rule.secondTo.value)
  }

  /** The buffer after one rule. */
  function AfterRule(buf: seq<byte>, pm: map<PropKey, PropertyRef>, rule: MappingRule): (r: seq<byte>)
    ensures |r| == |buf|
  {
    if RuleOutcome(buf, pm, rule) == Changed then
      var p := RuleTarget(pm, rule).value;
      WithSecondCell(buf, p, rule.secondTo.value)
    else buf
  }

  /** The buffer after the mapping loop, the number of cells it patched, and whether a patch raised. */
  datatype MapResult = MapResult(buf: seq<byte>, changes: nat, raised: bool)

  function MappingsFrom(buf: seq<byte>, pm: map<PropKey, PropertyRef>, rules: seq<MappingRule>): (r: MapResult)
    ensures |r.buf| == |buf| && r.changes <= |rules|
    decreases |rules|
  {
    if rules == [] then MapResult(buf, 0, false)
    else
      var o := RuleOutcome(buf, pm, rules[0]);
      if o == Raised then MapResult(buf, 0, true)
      else
        var rest := MappingsFrom(AfterRule(buf, pm, rules[0]), pm, rules[1..]);
        MapResult(rest.buf, rest.changes + if o == Changed then 1 else 0, rest.raised)
  }

  lemma MappingsUnfold(buf: seq<byte>, pm: map<PropKey, PropertyRef>, rules: seq<MappingRule>, i: nat)
    requires i < |rules|
    ensures var o := RuleOutcome(buf, pm, rules[i]);
      var rest := MappingsFrom(AfterRule(buf, pm, rules[i]), pm, rules[i + 1..]);
      MappingsFrom(buf, pm, rules[i..]) ==
        if o == Raised then MapResult(buf, 0, true)
        else MapResult(rest.buf, rest.changes + if o == Changed then 1 else 0, rest.raised)
  {
    assert rules[i..][1..] == rules[i + 1..];
  }

  /** One mapping rule, applied in place. */
  method ApplyRule(data: array<byte>, pm: map<PropKey, PropertyRef>, rule: MappingRule) returns (o: PatchOutcome)
    modifies data
    ensures o == RuleOutcome(old(data[..]), pm, rule)
    ensures data[..] == AfterRule(old(data[..]), pm, rule)
  {
    var key := (rule.node, rule.property);
    if key !in pm {
      return Unchanged;
    }
    var ref := pm[key];
    if rule.kind == U32_TRIPLET {
      if rule.secondTo.None? {
        return Unchanged;
      }
      o := PatchTripletSecond(data, ref, rule.secondFrom, rule.secondTo.value);
    } else {
      o := Unchanged;
    }
  }

  /** Rule `i` of the mapping loop: a raise ends the loop with the buffer as it was, else the rest of the loop follows. */
  method MappingIteration(data: array<byte>, pm: map<PropKey, PropertyRef>, rules: seq<MappingRule>, i: nat) returns (o: PatchOutcome)
    requires i < |rules|
    modifies data
    ensures o == Raised ==> data[..] == old(data[..]) && MappingsFrom(old(data[..]), pm, rules[i..]) == MapResult(data[..], 0, true)
    ensures o != Raised ==>
      var rest := MappingsFrom(data[..], pm, rules[i + 1..]);
      MappingsFrom(old(data[..]), pm, rules[i..]) == MapResult(rest.buf, rest.changes + if o == Changed then 1 else 0, rest.raised)
  {
    MappingsUnfold(data[..], pm, rules, i);
    o := ApplyRule(data, pm, rules[i]);
  }

  /** The `for m in t.mappings` loop; stops at the first raise. */
  method ApplyMappings(data: array<byte>, pm: map<PropKey, PropertyRef>, rules: seq<MappingRule>)
    returns (changes: nat, raised: bool)
    modifies data
    ensures MapResult(data[..], changes, raised) == MappingsFrom(old(data[..]), pm, rules)
  {
    ghost var final := MappingsFrom(data[..], pm, rules);
    changes := 0;
    assert rules[0..] == rules;
    for i := 0 to |rules|
      invariant var f := MappingsFrom(data[..], pm, rules[i..]);
        f.buf == final.buf && changes + f.changes == final.changes && f.raised == final.raised
    {
      var o := MappingIteration(data, pm, rules, i);
      if o == Raised {
        return changes, true;
      }
      if o == Changed {
        changes := changes + 1;
      }
    }
    raised := false;
  }

  /** A loop that patched nothing left the buffer as it was. */
  lemma {:induction false} MappingsNoChange(buf: seq<byte>, pm: map<PropKey, PropertyRef>, rules: seq<MappingRule>)
    requires MappingsFrom(buf, pm, rules).changes == 0
    ensures MappingsFrom(buf, pm, rules).buf == buf
    decreases |rules|
  {
    if rules != [] && RuleOutcome(buf, pm, rules[0]) != Raised {
      MappingsNoChange(AfterRule(buf, pm, rules[0]), pm, rules[1..]);
    }
  }

  /** Every byte the loop changes lies in the middle cell of one of the tree's properties. */
  lemma {:induction false} MappingsFrame(buf: seq<byte>, pm: map<PropKey, PropertyRef>, rules: seq<MappingRule>, k: nat)
    requires k < |buf| && MappingsFrom(buf, pm, rules).buf[k] != buf[k]
    ensures exists p :: p in pm.Values && p.valueOffset + 4 <= k < p.valueOffset + 8
    decreases |rules|
  {
    if rules != [] && RuleOutcome(buf, pm, rules[0]) != Raised {
      var next := AfterRule(buf, pm, rules[0]);
      if next[k] != buf[k] {
        var p := RuleTarget(pm, rules[0]).value;
        SecondCellFrame(buf, p, rules[0].secondTo.value);
        assert p in pm.Values;
      } else {
        MappingsFrame(next, pm, rules[1..], k);
      }
    }
  }

  // ---------------------------------------------------------------------------
  // Choosing the tree of a target
  // ---------------------------------------------------------------------------

  /** The node paths that carry at least one property. */
  function PropertyPaths(props: seq<PropertyRef>): set<Name>
  {
    set p | p in props :: p.nodePath
  }

  /** The result of the automatic choice: a tree index, none, or a raise while parsing a tree. */
  datatype Selection = Selected(index: nat) | NoneSelected | SelectRaised

  /** A tree has a property under one of the wanted nodes. */
  predicate HasWanted(data: seq<byte>, h: Hit, wanted: set<Name>)
  {
    var ps := Properties(data, h.offset, h.header);
    ps.Some? && exists p :: p in ps.value && p.nodePath in wanted
  }

  /** A tree the automatic choice passes over: it parses, and no property lies under a wanted node. */
  predicate PassedOver(data: seq<byte>, h: Hit, wanted: set<Name>)
  {
    Properties(data, h.offset, h.header).Some? && !HasWanted(data, h, wanted)
  }

  /** How the automatic choice sees one tree. */
  datatype TreeVerdict = Unparsable | Wanted | Passed

  /** The test the automatic choice makes of one tree: parse it, and intersect its node paths with the wanted nodes. */
  function VerdictOf(data: seq<byte>, h: Hit, wanted: set<Name>): (r: TreeVerdict)
    ensures r.Wanted? <==> HasWanted(data, h, wanted)
    ensures r.Passed? <==> PassedOver(data, h, wanted)
  {
    match Properties(data, h.offset, h.header)
    case None => Unparsable
    case Some(ps) =>
      WantedMeetsPaths(ps, wanted);
      if wanted * PropertyPaths(ps) != {} then Wanted else Passed
  }

  /** The test made of each tree, in order. */
  function Verdicts(data: seq<byte>, dtbs: seq<Hit>, wanted: set<Name>): (r: seq<TreeVerdict>)
    ensures |r| == |dtbs| && forall j :: 0 <= j < |dtbs| ==> r[j] == VerdictOf(data, dtbs[j], wanted)
  {
    seq(|dtbs|, j requires 0 <= j < |dtbs| => VerdictOf(data, dtbs[j], wanted))
  }

  /** The automatic choice over the verdicts from `k` on: the first wanted tree, unless a tree before it fails to parse. */
  function SelectFrom(vs: seq<TreeVerdict>, k: nat): Selection
    requires k <= |vs|
    decreases |vs| - k
  {
    if k == |vs| then NoneSelected
    else
      match vs[k]
      case Unparsable => SelectRaised
      case Wanted => Selected(k)
      case Passed => SelectFrom(vs, k + 1)
  }

  /** The automatic choice over all the trees. */
  function AutoSelectSpec(data: seq<byte>, dtbs: seq<Hit>, wanted: set<Name>): Selection
  {
    SelectFrom(Verdicts(data, dtbs, wanted), 0)
  }

  lemma {:induction false} SelectChosen(vs: seq<TreeVerdict>, k: nat)
    requires k <= |vs| && SelectFrom(vs, k).Selected?
    ensures var i := SelectFrom(vs, k).index;
      k <= i < |vs| && vs[i].Wanted? && forall j :: k <= j < i ==> vs[j].Passed?
    decreases |vs| - k
  {
    if vs[k].Passed? {
      SelectChosen(vs, k + 1);
    }
  }

  lemma {:induction false} SelectNone(vs: seq<TreeVerdict>, k: nat)
    requires k <= |vs|
    ensures SelectFrom(vs, k).NoneSelected? <==> forall j :: k <= j < |vs| ==> vs[j].Passed?
    decreases |vs| - k
  {
    if k < |vs| {
      SelectNone(vs, k + 1);
    }
  }

  /**
   * The automatic choice picks the first tree with a property under a wanted
   * node, every earlier tree being passed over; a wanted node without
   * properties is never enough to be picked.
   */
  lemma AutoSelectChosen(data: seq<byte>, dtbs: seq<Hit>, wanted: set<Name>)
    requires AutoSelectSpec(data, dtbs, wanted).Selected?
    ensures var i := AutoSelectSpec(data, dtbs, wanted).index;
      i < |dtbs| && HasWanted(data, dtbs[i], wanted)
      && forall j :: 0 <= j < i ==> PassedOver(data, dtbs[j], wanted)
  {
    var vs := Verdicts(data, dtbs, wanted);
    SelectChosen(vs, 0);
    var i := SelectFrom(vs, 0).index;
    assert vs[i].Wanted?;
    forall j | 0 <= j < i
      ensures PassedOver(data, dtbs[j], wanted)
    {
      assert vs[j].Passed?;
    }
  }

  /** No tree is chosen only when every tree is passed over. */
  lemma AutoSelectNone(data: seq<byte>, dtbs: seq<Hit>, wanted: set<Name>)
    ensures AutoSelectSpec(data, dtbs, wanted).NoneSelected? <==> forall j :: 0 <= j < |dtbs| ==> PassedOver(data, dtbs[j], wanted)
  {
    var vs := Verdicts(data, dtbs, wanted);
    SelectNone(vs, 0);
    assert (forall j :: 0 <= j < |vs| ==> vs[j].Passed?) <==> forall j :: 0 <= j < |dtbs| ==> PassedOver(data, dtbs[j], wanted);
  }

  /** Some wanted node has a property exactly when some property lies under a wanted node. */
  lemma WantedMeetsPaths(ps: seq<PropertyRef>, wanted: set<Name>)
    ensures wanted * PropertyPaths(ps) != {} <==> exists p :: p in ps && p.nodePath in wanted
  {
    if wanted * PropertyPaths(ps) != {} {
      var n :| n in wanted * PropertyPaths(ps);
      var p :| p in ps && p.nodePath == n;
    }
    if exists p :: p in ps && p.nodePath in wanted {
      var p :| p in ps && p.nodePath in wanted;
      assert p.nodePath in wanted * PropertyPaths(ps);
    }
  }

  /** The loop over the trees that makes the automatic choice. */
  method AutoSelect(data: seq<byte>, dtbs: seq<Hit>, wanted: set<Name>) returns (s: Selection)
    ensures s == AutoSelectSpec(data, dtbs, wanted)
  {
    ghost var vs := Verdicts(data, dtbs, wanted);
    for i := 0 to |dtbs|
      invariant SelectFrom(vs, i) == SelectFrom(vs, 0)
    {
      var props := ParseProperties(data, dtbs[i].offset, dtbs[i].header);
      if props.None? {
        return SelectRaised;
      }
      var nodePaths := set p | p in props.value :: p.nodePath;
      if wanted * nodePaths != {} {
        return Selected(i);
      }
    }
    return NoneSelected;
  }

  /** `{m.node for m in t.mappings}`. */
  function WantedNodes(rules: seq<MappingRule>): set<Name>
  {
    set m | m in rules :: m.node
  }

  /** Which index a target asks for: its own, else the command line's, else the automatic choice. */
  datatype Resolution = Index(idx: int) | NoCandidate | ResolveRaised

  function ResolveTarget(t: TargetConfig, argsIndex: Option<int>, data: seq<byte>, dtbs: seq<Hit>): Resolution
  {
    if t.dtbIndex.Some? then Index(t.dtbIndex.value)
    else if argsIndex.Some? then Index(argsIndex.value)
    else
      match AutoSelectSpec(data, dtbs, WantedNodes(t.mappings))
      case Selected(i) => Index(i)
      case NoneSelected => NoCandidate
      case SelectRaised => ResolveRaised
  }

  /** An explicit index wins over the command line's; only without both is a tree chosen by its properties. */
  lemma ResolvePriority(t: TargetConfig, argsIndex: Option<int>, data: seq<byte>, dtbs: seq<Hit>)
    ensures t.dtbIndex.Some? ==> ResolveTarget(t, argsIndex, data, dtbs) == Index(t.dtbIndex.value)
    ensures t.dtbIndex.None? && argsIndex.Some? ==> ResolveTarget(t, argsIndex, data, dtbs) == Index(argsIndex.value)
    ensures t.dtbIndex.None? && argsIndex.None? && ResolveTarget(t, argsIndex, data, dtbs).Index? ==>
      var i := ResolveTarget(t, argsIndex, data, dtbs).idx;
      0 <= i < |dtbs| && HasWanted(data, dtbs[i], WantedNodes(t.mappings))
  {
    if t.dtbIndex.None? && argsIndex.None? && AutoSelectSpec(data, dtbs, WantedNodes(t.mappings)).Selected? {
      AutoSelectChosen(data, dtbs, WantedNodes(t.mappings));
    }
  }

  method ResolveTargetIndex(t: TargetConfig, argsIndex: Option<int>, data: seq<byte>, dtbs: seq<Hit>) returns (r: Resolution)
    ensures r == ResolveTarget(t, argsIndex, data, dtbs)
  {
    if t.dtbIndex.Some? {
      return Index(t.dtbIndex.value);
    }
    if argsIndex.Some? {
      return Index(argsIndex.value);
    }
    var s := AutoSelect(data, dtbs, WantedNodes(t.mappings));
    match s {
      case Selected(i) => r := Index(i);
      case NoneSelected => r := NoCandidate;
      case SelectRaised => r := ResolveRaised;
    }
  }

  // ---------------------------------------------------------------------------
  // One target, and the whole profile
  // ---------------------------------------------------------------------------

  /** The image, the number of cells patched so far, and the digest records so far. */
  datatype RunState = RunState(buf: seq<byte>, total: nat, records: seq<DigestRecord>)

  /** The record for a tree whose bytes went from `before` to `after`. */
  function RecordFor(d: Digester, before: seq<byte>, after: seq<byte>): DigestRecord
  {
    DigestRecord(CrcBytes(d, before), CrcBytes(d, after), d.sha1(before), d.sha1(after))
  }

  /** The bytes `data[off : off + totalsize]` of a tree. */
  function TreeBytes(buf: seq<byte>, h: Hit): seq<byte>
  {
    Slice(buf, h.offset, h.offset + h.header.TotalSize())
  }

  /** Patching the mappings into tree `h` and recording its digests if its bytes changed; `None` when it raises. */
  function PatchTree(st: RunState, h: Hit, rules: seq<MappingRule>, d: Digester): (r: Option<RunState>)
    ensures r.Some? ==> |r.value.buf| == |st.buf| && st.total <= r.value.total
  {
    match Properties(st.buf, h.offset, h.header)
    case None => None
    case Some(props) =>
      var mr := MappingsFrom(st.buf, PropMap(props), rules);
      if mr.raised then None
      else
        var before, after := TreeBytes(st.buf, h), TreeBytes(mr.buf, h);
        var records := if mr.changes > 0 && after != before then st.records + [RecordFor(d, before, after)] else st.records;
        Some(RunState(mr.buf, st.total + mr.changes, records))
  }

  /** One iteration of `for t in cfg.targets`; `None` when it raises. */
  function TargetStep(st: RunState, t: TargetConfig, argsIndex: Option<int>, dtbs: seq<Hit>, d: Digester): (r: Option<RunState>)
    ensures r.Some? ==> |r.value.buf| == |st.buf| && st.total <= r.value.total
  {
    match ResolveTarget(t, argsIndex, st.buf, dtbs)
    case ResolveRaised => None
    case NoCandidate => Some(st)
    case Index(idx) =>
      if idx < 0 || idx >= |dtbs| then Some(st)
      else PatchTree(st, dtbs[idx], t.mappings, d)
  }

  function TargetsFrom(st: RunState, targets: seq<TargetConfig>, argsIndex: Option<int>, dtbs: seq<Hit>, d: Digester): (r: Option<RunState>)
    ensures r.Some? ==> |r.value.buf| == |st.buf| && st.total <= r.value.total
    decreases |targets|
  {
    if targets == [] then Some(st)
    else
      match TargetStep(st, targets[0], argsIndex, dtbs, d)
      case None => None
      case Some(next) => TargetsFrom(next, targets[1..], argsIndex, dtbs, d)
  }

  /** The whole of `process_single_profile`: the image afterwards and `total_changes`, or `None` when it raises. */
  function ProfileSpec(buf: seq<byte>, targets: seq<TargetConfig>, dtbs: seq<Hit>, argsIndex: Option<int>, noFitHash: bool, d: Digester): Option<(seq<byte>, nat)>
  {
    var init := RunState(buf, 0, []);
    match TargetsFrom(init, targets, argsIndex, dtbs, d)
    case None => None
    case Some(st) =>
      match FitStep(st.buf, dtbs, st.records, noFitHash)
      case None => None
      case Some(out) => Some((out, st.total))
  }

  /** One unfolding of `TargetsFrom` at target `i`. */
  lemma TargetsUnfold(st: RunState, targets: seq<TargetConfig>, argsIndex: Option<int>, dtbs: seq<Hit>, d: Digester, i: nat)
    requires i < |targets|
    ensures TargetsFrom(st, targets[i..], argsIndex, dtbs, d) ==
      match TargetStep(st, targets[i], argsIndex, dtbs, d)
      case None => None
      case Some(next) => TargetsFrom(next, targets[i + 1..], argsIndex, dtbs, d)
  {
    assert targets[i..][1..] == targets[i + 1..];
  }

  /** Every value the index holds is one of the tree's properties. */
  lemma {:induction false} PropMapValues(props: seq<PropertyRef>, p: PropertyRef)
    requires p in PropMap(props).Values
    ensures p in props
    decreases |props|
  {
    if props != [] {
      var init, last := props[..|props| - 1], props[|props| - 1];
      if p != last {
        var key :| key in PropMap(props) && PropMap(props)[key] == p;
        assert key in PropMap(init) && PropMap(init)[key] == p;
        PropMapValues(init, p);
      }
    }
  }

  /**
   * A target changes only middle cells of `gpios`-like properties of the
   * tree it chose, and it appends at most one record: exactly when it patched
   * a cell and that tree's bytes differ afterwards, holding the digests of
   * the tree's bytes before and after.
   */
  lemma TargetStepEffect(st: RunState, t: TargetConfig, argsIndex: Option<int>, dtbs: seq<Hit>, d: Digester, k: nat)
    requires TargetStep(st, t, argsIndex, dtbs, d).Some?
    ensures var r, res := TargetStep(st, t, argsIndex, dtbs, d).value, ResolveTarget(t, argsIndex, st.buf, dtbs);
      (k < |st.buf| && r.buf[k] != st.buf[k] ==>
        res.Index? && 0 <= res.idx < |dtbs|
        && Properties(st.buf, dtbs[res.idx].offset, dtbs[res.idx].header).Some?
        && exists p :: (p in Properties(st.buf, dtbs[res.idx].offset, dtbs[res.idx].header).value
          && p.valueOffset + 4 <= k < p.valueOffset + 8))
      && r.records == (if res.Index? && 0 <= res.idx < |dtbs| && r.total > st.total
          && TreeBytes(st.buf, dtbs[res.idx]) != TreeBytes(r.buf, dtbs[res.idx])
        then st.records + [RecordFor(d, TreeBytes(st.buf, dtbs[res.idx]), TreeBytes(r.buf, dtbs[res.idx]))]
        else st.records)
  {
    var r := TargetStep(st, t, argsIndex, dtbs, d).value;
    var res := ResolveTarget(t, argsIndex, st.buf, dtbs);
    if res.Index? && 0 <= res.idx < |dtbs| {
      var h := dtbs[res.idx];
      var props := Properties(st.buf, h.offset, h.header).value;
      if k < |st.buf| && r.buf[k] != st.buf[k] {
        MappingsFrame(st.buf, PropMap(props), t.mappings, k);
        var p :| p in PropMap(props).Values && p.valueOffset + 4 <= k < p.valueOffset + 8;
        PropMapValues(props, p);
      }
    }
  }

  /** A run of targets that patched nothing left the image and the records as they were. */
  lemma {:induction false} TargetsNoChange(st: RunState, targets: seq<TargetConfig>, argsIndex: Option<int>, dtbs: seq<Hit>, d: Digester)
    requires TargetsFrom(st, targets, argsIndex, dtbs, d).Some?
    requires TargetsFrom(st, targets, argsIndex, dtbs, d).value.total == st.total
    ensures TargetsFrom(st, targets, argsIndex, dtbs, d).value.buf == st.buf
    ensures TargetsFrom(st, targets, argsIndex, dtbs, d).value.records == st.records
    decreases |targets|
  {
    if targets != [] {
      var next := TargetStep(st, targets[0], argsIndex, dtbs, d).value;
      TargetsNoChange(next, targets[1..], argsIndex, dtbs, d);
      var res := ResolveTarget(targets[0], argsIndex, st.buf, dtbs);
      if res.Index? && 0 <= res.idx < |dtbs| {
        var h := dtbs[res.idx];
        var props := Properties(st.buf, h.offset, h.header).value;
        MappingsNoChange(st.buf, PropMap(props), targets[0].mappings);
      }
    }
  }

  /**
   * `total_changes == 0` means the image is untouched: nothing was patched,
   * so no record was made and the FIT digests were not rewritten either.
   */
  lemma ProfileNoChangeUntouched(buf: seq<byte>, targets: seq<TargetConfig>, dtbs: seq<Hit>, argsIndex: Option<int>, noFitHash: bool, d: Digester)
    requires var r := ProfileSpec(buf, targets, dtbs, argsIndex, noFitHash, d); r.Some? && r.value.1 == 0
    ensures ProfileSpec(buf, targets, dtbs, argsIndex, noFitHash, d).value.0 == buf
  {
    TargetsNoChange(RunState(buf, 0, []), targets, argsIndex, dtbs, d);
  }

  /** The body of a target once its tree is known, in place. */
  method PatchTreeInPlace(data: array<byte>, st: RunState, h: Hit, rules: seq<MappingRule>, d: Digester)
    returns (r: Option<RunState>)
    requires st.buf == data[..]
    modifies data
    ensures r == PatchTree(st, h, rules, d)
    ensures r.Some? ==> data[..] == r.value.buf
  {
    var props := ParseProperties(data[..], h.offset, h.header);
    if props.None? {
      return None;
    }
    assert Properties(st.buf, h.offset, h.header) == props;
    var pm := PropMap(props.value);
    var original := Slice(data[..], h.offset, h.offset + h.header.TotalSize());
    ghost var mr := MappingsFrom(st.buf, pm, rules);
    var changes, raised := ApplyMappings(data, pm, rules);
    assert data[..] == mr.buf && changes == mr.changes && raised == mr.raised;
    if raised {
      return None;
    }
    assert original == TreeBytes(st.buf, h);
    var records := st.records;
    if changes > 0 {
      var newSlice := Slice(data[..], h.offset, h.offset + h.header.TotalSize());
      assert newSlice == TreeBytes(mr.buf, h);
      if newSlice != original {
        records := records + [RecordFor(d, original, newSlice)];
      }
    }
    assert records == if mr.changes > 0 && TreeBytes(mr.buf, h) != TreeBytes(st.buf, h)
      then st.records + [RecordFor(d, TreeBytes(st.buf, h), TreeBytes(mr.buf, h))] else st.records;
    return Some(RunState(data[..], st.total + changes, records));
  }

  /** One target, in place: `None` when it raises (the image may then be partly patched). */
  method ProcessTarget(data: array<byte>, st: RunState, t: TargetConfig, argsIndex: Option<int>, dtbs: seq<Hit>, d: Digester)
    returns (r: Option<RunState>)
    requires st.buf == data[..]
    modifies data
    ensures r == TargetStep(st, t, argsIndex, dtbs, d)
    ensures r.Some? ==> data[..] == r.value.buf
  {
    var res := ResolveTargetIndex(t, argsIndex, data[..], dtbs);
    match res {
      case ResolveRaised => return None;
      case NoCandidate => return Some(st);
      case Index(idx) =>
        if idx < 0 || idx >= |dtbs| {
          return Some(st);
        }
        r := PatchTreeInPlace(data, st, dtbs[idx], t.mappings, d);
    }
  }

  /** `process_single_profile`: the image is patched in place; returns `total_changes`, or `None` when it raises. */
  method ProcessSingleProfile(data: array<byte>, targets: seq<TargetConfig>, dtbs: seq<Hit>, argsIndex: Option<int>, noFitHash: bool, d: Digester)
    returns (r: Option<nat>)
    modifies data
    ensures var spec := ProfileSpec(old(data[..]), targets, dtbs, argsIndex, noFitHash, d);
      r.Some? == spec.Some? && (r.Some? ==> data[..] == spec.value.0 && r.value == spec.value.1)
  {
    ghost var init := RunState(data[..], 0, []);
    ghost var final := TargetsFrom(init, targets, argsIndex, dtbs, d);
    var st := RunState(data[..], 0, []);
    assert targets[0..] == targets;
    for i := 0 to |targets|
      invariant st.buf == data[..]
      invariant TargetsFrom(st, targets[i..], argsIndex, dtbs, d) == final
    {
      TargetsUnfold(st, targets, argsIndex, dtbs, d, i);
      var next := ProcessTarget(data, st, targets[i], argsIndex, dtbs, d);
      if next.None? {
        return None;
      }
      st := next.value;
    }
    var ok := FitStepInPlace(data, dtbs, st.records, noFitHash);
    if !ok {
      return None;
    }
    return Some(st.total);
  }
}
