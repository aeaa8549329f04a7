/**
 * The two walkers over the structure block of a flattened devicetree
 * (sections 5.4.1 and 5.6 of the Devicetree Specification v0.4):
 * `parse_properties` locates every property, `collect_node_paths` gathers
 * every node path. Both keep a stack of node names and a cursor that moves
 * in 4-byte-aligned steps; neither copies a property value.
 */
module FdtWalk {
  import opened Wrappers
  import opened Seqs
  import opened Bytes
  import opened FdtHeader

  const FDT_BEGIN_NODE: nat := 0x1
  const FDT_END_NODE: nat := 0x2
  const FDT_PROP: nat := 0x3
  const FDT_NOP: nat := 0x4
  const FDT_END: nat := 0x9

  /** Node names, property names and paths, kept as the raw bytes of the blob. */
  type Name = seq<byte>

  const SLASH: byte := 0x2F
  /** `"/"`: the path of the root node, and the stack entry for a node with an empty name. */
  const ROOT: Name := [SLASH]
  /** `"?"`: the name given to a property whose name has no terminating NUL. */
  const UNKNOWN: Name := [0x3F]
  const NUL: seq<byte> := [0]

  /** `PropertyRef`: where a property's value lies in the image, and whose it is. */
  datatype PropertyRef = PropertyRef(nodePath: Name, name: Name, valueOffset: nat, valueLen: nat)

  // ---------------------------------------------------------------------------
  // Node paths
  // ---------------------------------------------------------------------------

  /** The stack entries that name a real path segment: neither empty nor `"/"`. */
  function Segments(stack: seq<Name>): (r: seq<Name>)
    ensures |r| <= |stack|
    ensures forall k :: 0 <= k < |r| ==> r[k] != [] && r[k] != ROOT && r[k] in stack
  {
    if stack == [] then []
    else
      var init := Segments(stack[..|stack| - 1]);
      var last := stack[|stack| - 1];
      if last != [] && last != ROOT then init + [last] else init
  }

  /** `"/".join(segs)`. */
  function JoinSlash(segs: seq<Name>): (r: Name)
  {
    if segs == [] then []
    else if |segs| == 1 then segs[0]
    else JoinSlash(segs[..|segs| - 1]) + [SLASH] + segs[|segs| - 1]
  }

  /** `"/" + "/".join([p for p in path_stack if p and p != "/"])`. */
  function NodePath(stack: seq<Name>): (r: Name)
    ensures |r| >= 1 && r[0] == SLASH
  {
    [SLASH] + JoinSlash(Segments(stack))
  }

  /** Pushing the root (or an empty name) leaves the path alone; pushing a real name appends one segment. */
  lemma NodePathPush(stack: seq<Name>, name: Name)
    ensures name == [] || name == ROOT ==> NodePath(stack + [name]) == NodePath(stack)
    ensures name != [] && name != ROOT && NodePath(stack) == ROOT ==>
      NodePath(stack + [name]) == ROOT + name
    ensures name != [] && name != ROOT && NodePath(stack) != ROOT ==>
      NodePath(stack + [name]) == NodePath(stack) + [SLASH] + name
  {
    assert (stack + [name])[..|stack|] == stack;
    var segs := Segments(stack);
    if name != [] && name != ROOT {
      assert Segments(stack + [name]) == segs + [name];
      if segs == [] {
        assert NodePath(stack) == ROOT;
      } else {
        assert (segs + [name])[..|segs|] == segs;
        assert JoinSlash(segs) != [] by {
          JoinNonEmpty(segs);
        }
      }
    }
  }

  /** Joining non-empty segments never gives the empty string. */
  lemma {:induction false} JoinNonEmpty(segs: seq<Name>)
    requires segs != [] && forall k :: 0 <= k < |segs| ==> segs[k] != []
    ensures JoinSlash(segs) != []
    decreases |segs|
  {
    if |segs| > 1 {
      assert |JoinSlash(segs)| >= |segs[|segs| - 1]| > 0;
    }
  }

  /** The path is `"/"` exactly when every name on the stack is empty or the root's. */
  lemma {:induction false} NodePathIsRoot(stack: seq<Name>)
    ensures NodePath(stack) == ROOT <==> forall k :: 0 <= k < |stack| ==> stack[k] == [] || stack[k] == ROOT
    decreases |stack|
  {
    if stack != [] {
      var init, last := stack[..|stack| - 1], stack[|stack| - 1];
      assert stack == init + [last];
      NodePathIsRoot(init);
      NodePathPush(init, last);
      if last != [] && last != ROOT {
        assert NodePath(stack) != ROOT by {
          if NodePath(init) == ROOT {
            assert |NodePath(stack)| == 1 + |last| > 1;
          } else {
            assert |NodePath(stack)| > |NodePath(init)| >= 1;
          }
        }
      } else {
        forall k | 0 <= k < |init|
          ensures stack[k] == init[k]
        {
        }
      }
    }
  }

  // ---------------------------------------------------------------------------
  // One step of the structure-block walk
  // ---------------------------------------------------------------------------

  /** What a step met at the cursor. */
  datatype Event =
    | NodeBegun
    | NodeEnded
    | PropertyAt(valueOffset: nat, valueLen: nat, nameOffset: nat)
    | Nop

  /**
   * The outcome of one loop iteration: the walk advances to `next` with a new
   * stack, stops (FDT_END, an unknown token, a node name without NUL, a
   * property header past the end), or finds fewer than four bytes for the
   * token word.
   */
  datatype Step =
    | Advance(next: nat, stack: seq<Name>, event: Event)
    | Halt
    | Truncated

  /** The stack after `FDT_END_NODE`: the innermost name popped, or nothing if there is none. */
  function Pop(stack: seq<Name>): (r: seq<Name>)
    ensures stack == [] ==> r == []
    ensures stack != [] ==> r + [stack[|stack| - 1]] == stack
  {
    if stack == [] then [] else stack[..|stack| - 1]
  }

  /** One iteration of the token loop shared by `parse_properties` and `collect_node_paths`. */
  function StepAt(fw: seq<byte>, cursor: nat, stack: seq<Name>): (r: Step)
    ensures r.Truncated? <==> cursor + 4 > |fw|
    ensures r.Advance? ==> cursor + 4 <= r.next
    ensures r.Advance? && r.event.NodeBegun? ==>
      Be32At(fw, cursor) == FDT_BEGIN_NODE && |r.stack| == |stack| + 1 && r.stack[..|stack|] == stack
      && r.stack[|stack|] != []
    ensures r.Advance? && r.event.NodeEnded? ==>
      Be32At(fw, cursor) == FDT_END_NODE && r.next == cursor + 4 && r.stack == Pop(stack)
    ensures r.Advance? && r.event.PropertyAt? ==>
      Be32At(fw, cursor) == FDT_PROP && r.stack == stack
      && r.event.valueOffset == cursor + 12 <= |fw|
      && r.event.valueLen == Be32At(fw, cursor + 4) && r.event.nameOffset == Be32At(fw, cursor + 8)
      && r.next == Align4(r.event.valueOffset + r.event.valueLen)
    ensures r.Advance? && r.event.Nop? ==>
      Be32At(fw, cursor) == FDT_NOP && r.next == cursor + 4 && r.stack == stack
  {
    if cursor + 4 > |fw| then Truncated
    else
      var token := Be32At(fw, cursor);
      var c := cursor + 4;
      if token == FDT_BEGIN_NODE then
        var end := Find(fw, NUL, c, |fw|);
        if end < 0 then Halt
        else
          var name := fw[c..end];
          Advance(Align4(end + 1), stack + [if name != [] then name else ROOT], NodeBegun)
      else if token == FDT_END_NODE then
        Advance(c, Pop(stack), NodeEnded)
      else if token == FDT_PROP then
        if c + 8 > |fw| then Halt
        else
          var valLen := Be32At(fw, c);
          Advance(Align4(c + 8 + valLen), stack, PropertyAt(c + 8, valLen, Be32At(fw, c + 4)))
      else if token == FDT_NOP then
        Advance(c, stack, Nop)
      else
        Halt
  }

  /** The walk stops exactly on FDT_END, an unknown token, a node name with no NUL, or a property header past the end. */
  lemma HaltsExactly(fw: seq<byte>, cursor: nat, stack: seq<Name>)
    requires cursor + 4 <= |fw|
    ensures StepAt(fw, cursor, stack).Halt? <==>
      var token := Be32At(fw, cursor);
      token == FDT_END
      || token !in {FDT_BEGIN_NODE, FDT_END_NODE, FDT_PROP, FDT_NOP}
      || (token == FDT_BEGIN_NODE && Find(fw, NUL, cursor + 4, |fw|) < 0)
      || (token == FDT_PROP && cursor + 12 > |fw|)
  {
  }

  /**
   * The body of the token loop up to the walker-specific work: read the token
   * word at `cursor` and move past it, its node name or its property header.
   */
  method ReadToken(fw: seq<byte>, cursor: nat, stack: seq<Name>) returns (step: Step)
    ensures step == StepAt(fw, cursor, stack)
  {
    if cursor + 4 > |fw| {
      return Truncated;
    }
    var token := Be32At(fw, cursor);
    var c := cursor + 4;
    if token == FDT_BEGIN_NODE {
      var end := Find(fw, NUL, c, |fw|);
      if end == -1 {
        return Halt;
      }
      var name := fw[c..end];
      c := Align4(end + 1);
      step := Advance(c, stack + [if name != [] then name else ROOT], NodeBegun);
    } else if token == FDT_END_NODE {
      var st := stack;
      if st != [] {
        st := st[..|st| - 1];
      }
      step := Advance(c, st, NodeEnded);
    } else if token == FDT_PROP {
      if c + 8 > |fw| {
        return Halt;
      }
      var valLen := Be32At(fw, c);
      var nameOff := Be32At(fw, c + 4);
      c := c + 8;
      var valueOff := c;
      c := Align4(c + valLen);
      step := Advance(c, stack, PropertyAt(valueOff, valLen, nameOff));
    } else if token == FDT_NOP {
      step := Advance(c, stack, Nop);
    } else if token == FDT_END {
      step := Halt;
    } else {
      step := Halt;
    }
  }

  // ---------------------------------------------------------------------------
  // parse_properties
  // ---------------------------------------------------------------------------

  /** No NUL byte lies in `fw[lo..hi]` (clamped to the end of `fw`). */
  predicate NulFree(fw: seq<byte>, lo: nat, hi: nat)
  {
    forall j :: lo <= j < hi && j < |fw| ==> fw[j] != 0
  }

  /**
   * `read_cstring(o)`: the bytes from `o` up to the first NUL before
   * `stringsEnd`, or `"?"` when there is none.
   */
  function ReadCString(fw: seq<byte>, o: nat, stringsEnd: nat): (r: Name)
    ensures NulFree(fw, o, stringsEnd) ==> r == UNKNOWN
    ensures !NulFree(fw, o, stringsEnd) ==>
      o + |r| < stringsEnd && o + |r| < |fw| && r == fw[o..o + |r|] && fw[o + |r|] == 0 && NulFree(fw, o, o + |r|)
  {
    var end := Find(fw, NUL, o, stringsEnd);
    NulOccursAt(fw);
    if end == -1 then UNKNOWN else fw[o..end]
  }

  /** The one-byte pattern `NUL` occurs exactly where `fw` holds a zero byte. */
  lemma NulOccursAt(fw: seq<byte>)
    ensures forall j: nat :: OccursAt(fw, NUL, j) <==> j < |fw| && fw[j] == 0
  {
    forall j: nat | j < |fw| && fw[j] == 0
      ensures OccursAt(fw, NUL, j)
    {
      assert fw[j..j + 1] == [fw[j]];
    }
  }

  /** The property a `PropertyAt` event records under the current stack. */
  function PropertyOf(fw: seq<byte>, stringsOff: nat, stringsEnd: nat, stack: seq<Name>, ev: Event): PropertyRef
    requires ev.PropertyAt?
  {
    PropertyRef(NodePath(stack), ReadCString(fw, stringsOff + ev.nameOffset, stringsEnd), ev.valueOffset, ev.valueLen)
  }

  /** `Some` of the properties the walk records from `cursor` on, or `None` if it raises on a truncated token. */
  function PropsFrom(fw: seq<byte>, stringsOff: nat, stringsEnd: nat, cursor: nat, stack: seq<Name>): Option<seq<PropertyRef>>
    decreases |fw| - cursor
  {
    if cursor >= |fw| then Some([])
    else
      match StepAt(fw, cursor, stack)
      case Truncated => None
      case Halt => Some([])
      case Advance(next, st, ev) =>
        var rest := PropsFrom(fw, stringsOff, stringsEnd, next, st);
        if ev.PropertyAt? && rest.Some? then Some([PropertyOf(fw, stringsOff, stringsEnd, stack, ev)] + rest.value)
        else rest
  }

  /** The structure block starts `off_dt_struct` bytes into the blob at `base`. */
  function StructStart(base: nat, hdr: Header): nat { base + hdr.OffDtStruct() }
  function StringsStart(base: nat, hdr: Header): nat { base + hdr.OffDtStrings() }
  function StringsEnd(base: nat, hdr: Header): nat { base + hdr.OffDtStrings() + hdr.SizeDtStrings() }

  /** The result of `parse_properties(fw, base, hdr)`: `None` when it raises. */
  function Properties(fw: seq<byte>, base: nat, hdr: Header): Option<seq<PropertyRef>>
  {
    PropsFrom(fw, StringsStart(base, hdr), StringsEnd(base, hdr), StructStart(base, hdr), [])
  }

  /** `Some(ps + rest)`, propagating a raise. */
  function Prepend(ps: seq<PropertyRef>, o: Option<seq<PropertyRef>>): Option<seq<PropertyRef>>
  {
    if o.None? then None else Some(ps + o.value)
  }

  lemma PrependNil(o: Option<seq<PropertyRef>>)
    ensures Prepend([], o) == o
  {
    if o.Some? {
      assert [] + o.value == o.value;
    }
  }

  lemma PrependAssoc(ps: seq<PropertyRef>, qs: seq<PropertyRef>, o: Option<seq<PropertyRef>>)
    ensures Prepend(ps + qs, o) == Prepend(ps, Prepend(qs, o))
  {
    if o.Some? {
      assert (ps + qs) + o.value == ps + (qs + o.value);
    }
  }

  /** One unfolding of `PropsFrom` in terms of the step taken at `cursor`. */
  lemma PropsUnfold(fw: seq<byte>, stringsOff: nat, stringsEnd: nat, cursor: nat, stack: seq<Name>)
    requires cursor < |fw|
    ensures var step := StepAt(fw, cursor, stack);
      PropsFrom(fw, stringsOff, stringsEnd, cursor, stack) ==
        if step.Truncated? then None
        else if step.Halt? then Some([])
        else if step.event.PropertyAt? then
          Prepend([PropertyOf(fw, stringsOff, stringsEnd, stack, step.event)], PropsFrom(fw, stringsOff, stringsEnd, step.next, step.stack))
        else PropsFrom(fw, stringsOff, stringsEnd, step.next, step.stack)
  {
  }

  /** The properties recorded so far, after the walk takes event `ev` under `stack`. */
  function Record(props: seq<PropertyRef>, fw: seq<byte>, stringsOff: nat, stringsEnd: nat, stack: seq<Name>, ev: Event): seq<PropertyRef>
  {
    if ev.PropertyAt? then props + [PropertyOf(fw, stringsOff, stringsEnd, stack, ev)] else props
  }

  /** A step that advances keeps the recorded properties followed by the rest of the walk the same. */
  lemma PropsAdvance(props: seq<PropertyRef>, fw: seq<byte>, stringsOff: nat, stringsEnd: nat, cursor: nat, stack: seq<Name>)
    requires cursor < |fw| && StepAt(fw, cursor, stack).Advance?
    ensures var step := StepAt(fw, cursor, stack);
      Prepend(props, PropsFrom(fw, stringsOff, stringsEnd, cursor, stack))
        == Prepend(Record(props, fw, stringsOff, stringsEnd, stack, step.event), PropsFrom(fw, stringsOff, stringsEnd, step.next, step.stack))
  {
    var step := StepAt(fw, cursor, stack);
    PropsUnfold(fw, stringsOff, stringsEnd, cursor, stack);
    if step.event.PropertyAt? {
      PrependAssoc(props, [PropertyOf(fw, stringsOff, stringsEnd, stack, step.event)], PropsFrom(fw, stringsOff, stringsEnd, step.next, step.stack));
    }
  }

  /**
   * One iteration of the `parse_properties` loop: read the token at `cursor`
   * and, on `FDT_PROP`, record the property. What has been recorded followed
   * by the rest of the walk is unchanged, and the walk moves forward.
   */
  method PropsIteration(fw: seq<byte>, stringsOff: nat, stringsEnd: nat, props: seq<PropertyRef>, cursor: nat, stack: seq<Name>)
    returns (step: Step, recorded: seq<PropertyRef>)
    requires cursor < |fw|
    ensures step.Truncated? ==> Prepend(props, PropsFrom(fw, stringsOff, stringsEnd, cursor, stack)) == None
    ensures step.Halt? ==> Prepend(props, PropsFrom(fw, stringsOff, stringsEnd, cursor, stack)) == Some(props)
    ensures step.Advance? ==> cursor < step.next
    ensures step.Advance? ==>
      Prepend(props, PropsFrom(fw, stringsOff, stringsEnd, cursor, stack))
        == Prepend(recorded, PropsFrom(fw, stringsOff, stringsEnd, step.next, step.stack))
  {
    step := ReadToken(fw, cursor, stack);
    recorded := props;
    if step.Truncated? || step.Halt? {
      PropsUnfold(fw, stringsOff, stringsEnd, cursor, stack);
      assert props + [] == props;
      return;
    }
    PropsAdvance(props, fw, stringsOff, stringsEnd, cursor, stack);
    if step.event.PropertyAt? {
      var name := ReadCString(fw, stringsOff + step.event.nameOffset, stringsEnd);
      var prop := PropertyRef(NodePath(stack), name, step.event.valueOffset, step.event.valueLen);
      recorded := props + [prop];
    }
  }

  /** `parse_properties(fw, base, hdr)`; `None` stands for the `struct.error` it raises on a truncated token. */
  method ParseProperties(fw: seq<byte>, base: nat, hdr: Header) returns (r: Option<seq<PropertyRef>>)
    ensures r == Properties(fw, base, hdr)
  {
    var props: seq<PropertyRef> := [];
    var stringsOff := base + hdr.OffDtStrings();
    var stringsEnd := stringsOff + hdr.SizeDtStrings();
    var cursor := base + hdr.OffDtStruct();
    var pathStack: seq<Name> := [];
    ghost var goal := Properties(fw, base, hdr);
    PrependNil(goal);
    while cursor < |fw|
      invariant Prepend(props, PropsFrom(fw, stringsOff, stringsEnd, cursor, pathStack)) == goal
      decreases |fw| - cursor
    {
      var step, recorded := PropsIteration(fw, stringsOff, stringsEnd, props, cursor, pathStack);
      if step.Truncated? {
        return None;
      } else if step.Halt? {
        return Some(props);
      }
      props, cursor, pathStack := recorded, step.next, step.stack;
    }
    assert props + [] == props;
    r := Some(props);
  }

  /**
   * Where a recorded property sits: its value starts 12 bytes past an
   * `FDT_PROP` token word, inside the image, and its length is the word right
   * after the token; its node path starts with `/`.
   */
  predicate Located(fw: seq<byte>, p: PropertyRef)
  {
    12 <= p.valueOffset <= |fw|
    && Be32At(fw, p.valueOffset - 12) == FDT_PROP
    && p.valueLen == Be32At(fw, p.valueOffset - 8)
    && |p.nodePath| >= 1 && p.nodePath[0] == SLASH
  }

  /** Every property recorded from `cursor` on is located, and lies past `cursor`. */
  lemma {:induction false} PropsFromLocated(fw: seq<byte>, stringsOff: nat, stringsEnd: nat, cursor: nat, stack: seq<Name>)
    requires PropsFrom(fw, stringsOff, stringsEnd, cursor, stack).Some?
    ensures forall p :: p in PropsFrom(fw, stringsOff, stringsEnd, cursor, stack).value ==>
      cursor + 12 <= p.valueOffset && Located(fw, p)
    decreases |fw| - cursor
  {
    if cursor < |fw| {
      var step := StepAt(fw, cursor, stack);
      PropsUnfold(fw, stringsOff, stringsEnd, cursor, stack);
      if step.Advance? {
        var rest := PropsFrom(fw, stringsOff, stringsEnd, step.next, step.stack);
        PropsFromLocated(fw, stringsOff, stringsEnd, step.next, step.stack);
        if step.event.PropertyAt? {
          var p0 := PropertyOf(fw, stringsOff, stringsEnd, stack, step.event);
          assert Located(fw, p0);
          assert PropsFrom(fw, stringsOff, stringsEnd, cursor, stack).value == [p0] + rest.value;
        }
      }
    }
  }

  /**
   * Properties in file order that never overlap: each value, and the 12-byte
   * header of the next property, end before the next value starts.
   */
  predicate Ordered(ps: seq<PropertyRef>)
  {
    forall j, k :: 0 <= j < k < |ps| ==> ps[j].valueOffset + ps[j].valueLen + 12 <= ps[k].valueOffset
  }

  lemma OrderedCons(p0: PropertyRef, rest: seq<PropertyRef>, next: nat)
    requires p0.valueOffset + p0.valueLen <= next && Ordered(rest)
    requires forall p :: p in rest ==> next + 12 <= p.valueOffset
    ensures Ordered([p0] + rest)
  {
    var ps := [p0] + rest;
    forall j, k | 0 <= j < k < |ps|
      ensures ps[j].valueOffset + ps[j].valueLen + 12 <= ps[k].valueOffset
    {
      assert ps[k] == rest[k - 1] && ps[k] in rest;
      if j > 0 {
        assert ps[j] == rest[j - 1];
      }
    }
  }

  /** The properties recorded from `cursor` on are in file order and never overlap. */
  lemma {:induction false} PropsFromOrdered(fw: seq<byte>, stringsOff: nat, stringsEnd: nat, cursor: nat, stack: seq<Name>)
    requires PropsFrom(fw, stringsOff, stringsEnd, cursor, stack).Some?
    ensures Ordered(PropsFrom(fw, stringsOff, stringsEnd, cursor, stack).value)
    decreases |fw| - cursor
  {
    if cursor < |fw| {
      var step := StepAt(fw, cursor, stack);
      PropsUnfold(fw, stringsOff, stringsEnd, cursor, stack);
      if step.Advance? {
        PropsFromOrdered(fw, stringsOff, stringsEnd, step.next, step.stack);
        if step.event.PropertyAt? {
          var rest := PropsFrom(fw, stringsOff, stringsEnd, step.next, step.stack).value;
          var p0 := PropertyOf(fw, stringsOff, stringsEnd, stack, step.event);
          PropsFromLocated(fw, stringsOff, stringsEnd, step.next, step.stack);
          OrderedCons(p0, rest, step.next);
        }
      }
    }
  }

  /** The properties `parse_properties` returns are located and in ascending, non-overlapping order. */
  lemma PropertiesLocated(fw: seq<byte>, base: nat, hdr: Header)
    requires Properties(fw, base, hdr).Some?
    ensures var ps := Properties(fw, base, hdr).value;
      (forall p :: p in ps ==> StructStart(base, hdr) + 12 <= p.valueOffset && Located(fw, p))
      && Ordered(ps)
  {
    PropsFromLocated(fw, StringsStart(base, hdr), StringsEnd(base, hdr), StructStart(base, hdr), []);
    PropsFromOrdered(fw, StringsStart(base, hdr), StringsEnd(base, hdr), StructStart(base, hdr), []);
  }

  // ---------------------------------------------------------------------------
  // collect_node_paths
  // ---------------------------------------------------------------------------

  /** The node paths the walk collects from `cursor` on; a truncated token ends the walk quietly. */
  function PathsFrom(fw: seq<byte>, cursor: nat, stack: seq<Name>): set<Name>
    decreases |fw| - cursor
  {
    if cursor >= |fw| then {}
    else
      match StepAt(fw, cursor, stack)
      case Truncated => {}
      case Halt => {}
      case Advance(next, st, ev) =>
        (if ev.NodeBegun? then {NodePath(st)} else {}) + PathsFrom(fw, next, st)
  }

  /** The result of `collect_node_paths(fw, base, hdr)`. */
  function NodePaths(fw: seq<byte>, base: nat, hdr: Header): set<Name>
  {
    PathsFrom(fw, StructStart(base, hdr), [])
  }

  /** One unfolding of `PathsFrom` in terms of the step taken at `cursor`. */
  lemma PathsUnfold(fw: seq<byte>, cursor: nat, stack: seq<Name>)
    requires cursor < |fw|
    ensures var step := StepAt(fw, cursor, stack);
      PathsFrom(fw, cursor, stack) ==
        if !step.Advance? then {}
        else (if step.event.NodeBegun? then {NodePath(step.stack)} else {}) + PathsFrom(fw, step.next, step.stack)
  {
  }

  /** `collect_node_paths(fw, base, hdr)`. */
  method CollectNodePaths(fw: seq<byte>, base: nat, hdr: Header) returns (paths: set<Name>)
    ensures paths == NodePaths(fw, base, hdr)
  {
    var cursor := base + hdr.OffDtStruct();
    var pathStack: seq<Name> := [];
    paths := {};
    while cursor < |fw|
      invariant paths + PathsFrom(fw, cursor, pathStack) == NodePaths(fw, base, hdr)
      decreases |fw| - cursor
    {
      var step := ReadToken(fw, cursor, pathStack);
      PathsUnfold(fw, cursor, pathStack);
      match step {
        case Truncated =>
          break;
        case Halt =>
          break;
        case Advance(next, st, ev) =>
          cursor, pathStack := next, st;
          if ev.NodeBegun? {
            var nodePath := NodePath(pathStack);
            paths := paths + {if nodePath != [] then nodePath else ROOT};
          }
      }
    }
  }
  /** Every collected path from `cursor` on starts with `/`, so it is never empty. */
  lemma {:induction false} PathsFromRooted(fw: seq<byte>, cursor: nat, stack: seq<Name>)
    ensures forall p :: p in PathsFrom(fw, cursor, stack) ==> |p| >= 1 && p[0] == SLASH
    decreases |fw| - cursor
  {
    if cursor < |fw| {
      var step := StepAt(fw, cursor, stack);
      PathsUnfold(fw, cursor, stack);
      if step.Advance? {
        PathsFromRooted(fw, step.next, step.stack);
      }
    }
  }

  /**
   * `collect_node_paths` only ever adds paths starting with `/`: its
   * fallback to `"/"` for an empty path never applies.
   */
  lemma NodePathsRooted(fw: seq<byte>, base: nat, hdr: Header)
    ensures forall p :: p in NodePaths(fw, base, hdr) ==> p != [] && p[0] == SLASH
  {
    PathsFromRooted(fw, StructStart(base, hdr), []);
  }

  /** The paths of the nodes open on the stack: one per non-empty prefix. */
  function StackPaths(stack: seq<Name>): set<Name>
  {
    set i | 1 <= i <= |stack| :: NodePath(stack[..i])
  }

  lemma StackPathsPrefix(st: seq<Name>, stack: seq<Name>)
    requires |st| <= |stack| && stack[..|st|] == st
    ensures StackPaths(st) <= StackPaths(stack)
  {
    forall x | x in StackPaths(st)
      ensures x in StackPaths(stack)
    {
      var i :| 1 <= i <= |st| && x == NodePath(st[..i]);
      assert st[..i] == stack[..i];
    }
  }

  lemma StackPathsPush(stack: seq<Name>, st: seq<Name>)
    requires |st| == |stack| + 1 && st[..|stack|] == stack
    ensures StackPaths(st) <= StackPaths(stack) + {NodePath(st)}
  {
    forall x | x in StackPaths(st)
      ensures x in StackPaths(stack) + {NodePath(st)}
    {
      var i :| 1 <= i <= |st| && x == NodePath(st[..i]);
      if i < |st| {
        assert st[..i] == stack[..i];
      } else {
        assert st[..i] == st;
      }
    }
  }

  /**
   * A property recorded from `cursor` on belongs to the root, to a node open
   * on the stack, or to a node the path walk collects from `cursor` on.
   */
  lemma {:induction false} PropsFromPathsCollected(fw: seq<byte>, stringsOff: nat, stringsEnd: nat, cursor: nat, stack: seq<Name>)
    requires PropsFrom(fw, stringsOff, stringsEnd, cursor, stack).Some?
    ensures forall p :: p in PropsFrom(fw, stringsOff, stringsEnd, cursor, stack).value ==>
      p.nodePath == ROOT || p.nodePath in StackPaths(stack) + PathsFrom(fw, cursor, stack)
    decreases |fw| - cursor
  {
    if cursor < |fw| {
      var step := StepAt(fw, cursor, stack);
      PropsUnfold(fw, stringsOff, stringsEnd, cursor, stack);
      PathsUnfold(fw, cursor, stack);
      if step.Advance? {
        var st := step.stack;
        PropsFromPathsCollected(fw, stringsOff, stringsEnd, step.next, st);
        match step.event {
          case NodeBegun =>
            StackPathsPush(stack, st);
          case NodeEnded =>
            StackPathsPrefix(st, stack);
          case PropertyAt(_, _, _) =>
            var rest := PropsFrom(fw, stringsOff, stringsEnd, step.next, st).value;
            var p0 := PropertyOf(fw, stringsOff, stringsEnd, stack, step.event);
            assert PropsFrom(fw, stringsOff, stringsEnd, cursor, stack).value == [p0] + rest;
            if stack != [] {
              assert stack[..|stack|] == stack;
              assert p0.nodePath in StackPaths(stack);
            }
          case Nop =>
        }
      }
    }
  }

  /**
   * Every property `parse_properties` reports lies under the root or under
   * a node `collect_node_paths` reports, so selecting by property paths never
   * names a node the path walk did not see.
   */
  lemma PropertyPathsAreNodePaths(fw: seq<byte>, base: nat, hdr: Header)
    requires Properties(fw, base, hdr).Some?
    ensures forall p :: p in Properties(fw, base, hdr).value ==> p.nodePath == ROOT || p.nodePath in NodePaths(fw, base, hdr)
  {
    PropsFromPathsCollected(fw, StringsStart(base, hdr), StringsEnd(base, hdr), StructStart(base, hdr), []);
  }
}
