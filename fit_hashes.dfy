/**
 * Locating the outer U-Boot FIT tree and its image hash nodes:
 * `read_prop_bytes`, `read_c_string_from_value`, `detect_fit` and
 * `group_fit_image_hashes`. Paths and names stay raw bytes; the ASCII
 * comparisons the source makes on decoded text give the same answers on them.
 */
module FitHashes {
  import opened Wrappers
  import opened Seqs
  import opened Bytes
  import opened FdtHeader
  import opened FdtScan
  import opened FdtWalk

  const IMAGES: Name := [0x69, 0x6D, 0x61, 0x67, 0x65, 0x73]            // "images"
  const HASH_PREFIX: Name := [0x68, 0x61, 0x73, 0x68, 0x2D]             // "hash-"
  const ALGO: Name := [0x61, 0x6C, 0x67, 0x6F]                          // "algo"
  const VALUE: Name := [0x76, 0x61, 0x6C, 0x75, 0x65]                   // "value"
  const CRC32_NAME: Name := [0x63, 0x72, 0x63, 0x33, 0x32]              // "crc32"
  const SHA1_NAME: Name := [0x73, 0x68, 0x61, 0x31]                     // "sha1"
  const IMAGES_PATH: Name := [SLASH] + IMAGES                           // "/images"
  const CONFIGURATIONS_PATH: Name :=                                    // "/configurations"
    [SLASH, 0x63, 0x6F, 0x6E, 0x66, 0x69, 0x67, 0x75, 0x72, 0x61, 0x74, 0x69, 0x6F, 0x6E, 0x73]
  const FDT_PREFIX: Name := [0x66, 0x64, 0x74]                          // "fdt"
  const KERNEL_PREFIX: Name := [0x6B, 0x65, 0x72, 0x6E, 0x65, 0x6C]     // "kernel"

  // ---------------------------------------------------------------------------
  // Reading property values
  // ---------------------------------------------------------------------------

  /** The number of bytes `blob[lo:lo + n]` holds: `n`, cut short by the end of the blob. */
  function ClampedLen(size: nat, lo: nat, n: nat): nat
  {
    if lo + n <= size then n else if lo <= size then size - lo else 0
  }

  /** `read_prop_bytes(blob, prop)`: the value bytes, silently cut short at the end of the blob. */
  function ReadPropBytes(blob: seq<byte>, p: PropertyRef): (r: seq<byte>)
    ensures |r| == ClampedLen(|blob|, p.valueOffset, p.valueLen)
    ensures forall k :: 0 <= k < |r| ==> r[k] == blob[p.valueOffset + k]
  {
    Slice(blob, p.valueOffset, p.valueOffset + p.valueLen)
  }

  /** `raw.split(b"\x00", 1)[0]`: the bytes before the first NUL, or all of them. */
  function BeforeNul(raw: seq<byte>): (r: seq<byte>)
    ensures |r| <= |raw| && r == raw[..|r|]
    ensures forall k :: 0 <= k < |r| ==> r[k] != 0
    ensures |r| < |raw| ==> raw[|r|] == 0
  {
    if raw == [] || raw[0] == 0 then []
    else [raw[0]] + BeforeNul(raw[1..])
  }

  /** `read_c_string_from_value(blob, prop)`, kept as bytes. */
  function ReadCStringFromValue(blob: seq<byte>, p: PropertyRef): (r: Name)
    ensures |r| <= ClampedLen(|blob|, p.valueOffset, p.valueLen)
    ensures forall k :: 0 <= k < |r| ==> r[k] == blob[p.valueOffset + k] && r[k] != 0
    ensures |r| < ClampedLen(|blob|, p.valueOffset, p.valueLen) ==> blob[p.valueOffset + |r|] == 0
  {
    BeforeNul(ReadPropBytes(blob, p))
  }

  // ---------------------------------------------------------------------------
  // Splitting a path into its segments
  // ---------------------------------------------------------------------------

  /** `s.lstrip("/")`. */
  function TrimLeft(s: Name): (r: Name)
    ensures |r| <= |s| && r == s[|s| - |r|..]
    ensures forall k :: 0 <= k < |s| - |r| ==> s[k] == SLASH
    ensures r == [] || r[0] != SLASH
  {
    if s != [] && s[0] == SLASH then TrimLeft(s[1..]) else s
  }

  /** `s.rstrip("/")`. */
  function TrimRight(s: Name): (r: Name)
    ensures |r| <= |s| && r == s[..|r|]
    ensures forall k :: |r| <= k < |s| ==> s[k] == SLASH
    ensures r == [] || r[|r| - 1] != SLASH
  {
    if s != [] && s[|s| - 1] == SLASH then TrimRight(s[..|s| - 1]) else s
  }

  /** `s.strip("/")`. */
  function Strip(s: Name): Name
  {
    TrimRight(TrimLeft(s))
  }

  /** `s.split("/")`: the pieces between separators, at least one, none containing `/`. */
  function SplitSlash(s: Name): (r: seq<Name>)
    ensures |r| >= 1
    decreases |s|
  {
    if s == [] then [[]]
    else
      var init := SplitSlash(s[..|s| - 1]);
      var c := s[|s| - 1];
      if c == SLASH then init + [[]]
      else init[..|init| - 1] + [init[|init| - 1] + [c]]
  }

  /** Joining one more piece puts a `/` before it. */
  lemma JoinSnoc(segs: seq<Name>, last: Name)
    requires segs != []
    ensures JoinSlash(segs + [last]) == JoinSlash(segs) + [SLASH] + last
  {
    assert (segs + [last])[..|segs|] == segs;
  }

  /** Extending the last piece extends the join. */
  lemma JoinExtendLast(m: seq<Name>, l: Name, c: byte)
    ensures JoinSlash(m + [l + [c]]) == JoinSlash(m + [l]) + [c]
  {
    if m == [] {
      assert m + [l + [c]] == [l + [c]];
      assert m + [l] == [l];
    } else {
      JoinSnoc(m, l + [c]);
      JoinSnoc(m, l);
      var x := JoinSlash(m) + [SLASH];
      assert x + (l + [c]) == (x + l) + [c];
    }
  }

  /** Joining the pieces of a split gives back the string. */
  lemma {:induction false} JoinSplit(s: Name)
    ensures JoinSlash(SplitSlash(s)) == s
    decreases |s|
  {
    if s != [] {
      var pre, c := s[..|s| - 1], s[|s| - 1];
      JoinSplit(pre);
      assert s == pre + [c];
      assert s[..|s| - 1] == pre;
      var init := SplitSlash(pre);
      if c == SLASH {
        JoinSnoc(init, []);
        assert pre + [SLASH] + [] == s;
      } else {
        var n := |init|;
        assert init[..n - 1] + [init[n - 1]] == init;
        JoinExtendLast(init[..n - 1], init[n - 1], c);
      }
    }
  }

  /** Appending a byte other than `/` extends the last piece of the split. */
  lemma SplitAppendByte(s: Name, c: byte)
    requires c != SLASH
    ensures var a, b := SplitSlash(s), SplitSlash(s + [c]);
      |b| == |a| && b[..|b| - 1] == a[..|a| - 1] && b[|b| - 1] == a[|a| - 1] + [c]
  {
    assert (s + [c])[..|s|] == s;
  }

  /** No byte of `t` is `/`. */
  predicate NoSlash(t: Name)
  {
    forall k :: 0 <= k < |t| ==> t[k] != SLASH
  }

  /** A trailing `/` starts a new, empty piece. */
  lemma SplitAfterSlash(s: Name)
    ensures SplitSlash(s + [SLASH]) == SplitSlash(s) + [[]]
  {
    assert (s + [SLASH])[..|s|] == s;
  }

  /** A string without `/` splits into itself alone. */
  lemma {:induction false} SplitSingle(t: Name)
    requires NoSlash(t)
    ensures SplitSlash(t) == [t]
    decreases |t|
  {
    if t != [] {
      var u, c := t[..|t| - 1], t[|t| - 1];
      assert NoSlash(u) by {
        assert forall k :: 0 <= k < |u| ==> u[k] == t[k];
      }
      SplitSingle(u);
      assert t == u + [c];
      SplitAppendByte(u, c);
      InitLast(SplitSlash(t));
    }
  }

  /** After a `/`, a piece without `/` becomes one more piece of the split. */
  lemma {:induction false} SplitAfterSeparator(x: Name, t: Name)
    requires NoSlash(t)
    ensures SplitSlash(x + [SLASH] + t) == SplitSlash(x) + [t]
    decreases |t|
  {
    if t == [] {
      assert x + [SLASH] + t == x + [SLASH];
      SplitAfterSlash(x);
    } else {
      var u, c := t[..|t| - 1], t[|t| - 1];
      assert NoSlash(u) by {
        assert forall k :: 0 <= k < |u| ==> u[k] == t[k];
      }
      SplitAfterSeparator(x, u);
      var y := x + [SLASH] + u;
      assert x + [SLASH] + t == y + [c];
      var a, b := SplitSlash(y), SplitSlash(y + [c]);
      SplitAppendByte(y, c);
      assert a[..|a| - 1] == SplitSlash(x) && a[|a| - 1] == u;
      assert b[|b| - 1] == t;
      InitLast(b);
    }
  }

  /** Splitting a join of pieces without `/` gives back the pieces. */
  lemma {:induction false} SplitJoin(segs: seq<Name>)
    requires segs != []
    requires forall k :: 0 <= k < |segs| ==> NoSlash(segs[k])
    ensures SplitSlash(JoinSlash(segs)) == segs
    decreases |segs|
  {
    var n := |segs|;
    if n == 1 {
      SplitSingle(segs[0]);
    } else {
      var init := segs[..n - 1];
      assert forall k :: 0 <= k < |init| ==> NoSlash(init[k]) by {
        forall k | 0 <= k < |init| ensures NoSlash(init[k]) {
          assert init[k] == segs[k];
        }
      }
      SplitJoin(init);
      assert JoinSlash(segs) == JoinSlash(init) + [SLASH] + segs[n - 1];
      SplitAfterSeparator(JoinSlash(init), segs[n - 1]);
      InitLast(segs);
    }
  }

  /** `node_path.strip("/").split("/")`. */
  function PathParts(path: Name): seq<Name>
  {
    SplitSlash(Strip(path))
  }

  /** A node path the grouping treats as a hash node: `/images/.../hash-*`, at least three segments. */
  predicate IsHashNode(path: Name)
  {
    var parts := PathParts(path);
    |parts| >= 3 && parts[0] == IMAGES && StartsWith(parts[|parts| - 1], HASH_PREFIX)
  }

  /** `"/" + "/".join(parts[:-1])`: the image node a hash node belongs to. */
  function ImageNodeOf(path: Name): Name
  {
    var parts := PathParts(path);
    [SLASH] + JoinSlash(parts[..|parts| - 1])
  }

  /** The image node is the parent of the hash node: appending the last segment gives back the stripped path. */
  lemma ImageNodeIsParent(path: Name)
    requires IsHashNode(path)
    ensures var parts := PathParts(path);
      ImageNodeOf(path) + [SLASH] + parts[|parts| - 1] == [SLASH] + Strip(path)
  {
    var parts := PathParts(path);
    JoinSplit(Strip(path));
    assert parts[..|parts| - 1][..|parts| - 2] == parts[..|parts| - 2];
    assert JoinSlash(parts) == JoinSlash(parts[..|parts| - 1]) + [SLASH] + parts[|parts| - 1];
  }

  // ---------------------------------------------------------------------------
  // Siblings and the first property of a given name
  // ---------------------------------------------------------------------------

  /** `by_path.get(path, [])`: the properties of node `path`, in order. */
  function Siblings(props: seq<PropertyRef>, path: Name): seq<PropertyRef>
  {
    if props == [] then []
    else
      var last := props[|props| - 1];
      Siblings(props[..|props| - 1], path) + (if last.nodePath == path then [last] else [])
  }

  /** The siblings of `path` are exactly the properties recorded under `path`. */
  lemma {:induction false} SiblingsMembers(props: seq<PropertyRef>, path: Name)
    ensures forall q :: q in Siblings(props, path) <==> q in props && q.nodePath == path
    decreases |props|
  {
    if props != [] {
      var init := props[..|props| - 1];
      SiblingsMembers(init, path);
      assert props == init + [props[|props| - 1]];
    }
  }

  /** `next((sp for sp in ps if sp.name == name), None)`. */
  function FirstNamed(ps: seq<PropertyRef>, name: Name): Option<PropertyRef>
  {
    if ps == [] then None
    else if ps[0].name == name then Some(ps[0])
    else FirstNamed(ps[1..], name)
  }

  /** Nothing is found exactly when no property is called `name`. */
  lemma {:induction false} FirstNamedNone(ps: seq<PropertyRef>, name: Name)
    ensures FirstNamed(ps, name).None? <==> forall q :: q in ps ==> q.name != name
    decreases |ps|
  {
    if ps != [] && ps[0].name != name {
      FirstNamedNone(ps[1..], name);
      assert forall q :: q in ps ==> q == ps[0] || q in ps[1..];
    }
  }

  /** What is found is the first property called `name`. */
  lemma {:induction false} FirstNamedFirst(ps: seq<PropertyRef>, name: Name)
    requires FirstNamed(ps, name).Some?
    ensures var r := FirstNamed(ps, name).value;
      exists i :: 0 <= i < |ps| && ps[i] == r && r.name == name && forall j :: 0 <= j < i ==> ps[j].name != name
    decreases |ps|
  {
    var r := FirstNamed(ps, name).value;
    if ps[0].name == name {
      assert ps[0] == r;
    } else {
      var tail := ps[1..];
      FirstNamedFirst(tail, name);
      var i :| 0 <= i < |tail| && tail[i] == r && r.name == name && forall j :: 0 <= j < i ==> tail[j].name != name;
      assert ps[i + 1] == r;
      assert forall j :: 1 <= j < i + 1 ==> ps[j] == tail[j - 1];
    }
  }

  // ---------------------------------------------------------------------------
  // The grouped map
  // ---------------------------------------------------------------------------

  /** The two digest algorithms the grouping keeps. */
  datatype Algo = Crc32 | Sha1

  /** `algo` as read from the value of an `algo` property, if it is one of the two kept. */
  function AlgoOf(algo: Name): (r: Option<Algo>)
    ensures r == Some(Crc32) <==> algo == CRC32_NAME
    ensures r == Some(Sha1) <==> algo == SHA1_NAME
  {
    if algo == CRC32_NAME then Some(Crc32) else if algo == SHA1_NAME then Some(Sha1) else None
  }

  /** One image's `{algo: value_prop}` dictionary. */
  datatype ImageEntry = ImageEntry(node: Name, crc32: Option<PropertyRef>, sha1: Option<PropertyRef>)
  {
    function Get(algo: Algo): Option<PropertyRef>
    {
      if algo == Crc32 then crc32 else sha1
    }

    function Set(algo: Algo, v: PropertyRef): (r: ImageEntry)
      ensures r.node == node && r.Get(algo) == Some(v)
      ensures forall a :: a != algo ==> r.Get(a) == Get(a)
    {
      if algo == Crc32 then ImageEntry(node, Some(v), sha1) else ImageEntry(node, crc32, Some(v))
    }
  }

  /** The returned dictionary, in insertion order. */
  type ImageMap = seq<ImageEntry>

  function Nodes(m: ImageMap): seq<Name>
  {
    seq(|m|, i requires 0 <= i < |m| => m[i].node)
  }

  /** No image node occurs twice. */
  predicate UniqueNodes(m: ImageMap)
  {
    forall i, j :: 0 <= i < j < |m| ==> m[i].node != m[j].node
  }

  /** `image_hashes.get(node, {}).get(algo)`. */
  function Get(m: ImageMap, node: Name, algo: Algo): Option<PropertyRef>
  {
    if m == [] then None
    else if m[0].node == node then m[0].Get(algo)
    else Get(m[1..], node, algo)
  }

  /** `image_hashes.setdefault(node, {})[algo] = v`. */
  function Put(m: ImageMap, node: Name, algo: Algo, v: PropertyRef): (r: ImageMap)
    ensures node in Nodes(m) ==> Nodes(r) == Nodes(m)
    ensures node !in Nodes(m) ==> Nodes(r) == Nodes(m) + [node]
  {
    if m == [] then [ImageEntry(node, None, None).Set(algo, v)]
    else if m[0].node == node then
      var r := [m[0].Set(algo, v)] + m[1..];
      assert forall i :: 0 <= i < |m| ==> Nodes(r)[i] == Nodes(m)[i];
      assert Nodes(r) == Nodes(m) && Nodes(m)[0] == node;
      r
    else
      var rest := Put(m[1..], node, algo, v);
      assert Nodes([m[0]] + rest) == [m[0].node] + Nodes(rest);
      assert Nodes(m) == [m[0].node] + Nodes(m[1..]);
      assert node !in Nodes(m) ==> [m[0].node] + (Nodes(m[1..]) + [node]) == Nodes(m) + [node];
      [m[0]] + rest
  }

  /** After a put, the written key reads back the written value and every other key reads as before. */
  lemma {:induction false} PutGet(m: ImageMap, node: Name, algo: Algo, v: PropertyRef, n: Name, a: Algo)
    ensures Get(Put(m, node, algo, v), n, a) == if n == node && a == algo then Some(v) else Get(m, n, a)
    decreases |m|
  {
    if m != [] && m[0].node != node {
      PutGet(m[1..], node, algo, v, n, a);
      assert Put(m, node, algo, v)[1..] == Put(m[1..], node, algo, v);
    }
  }

  /** A key occurs in the map exactly when it appears among its nodes; absent keys read as nothing. */
  lemma {:induction false} GetAbsent(m: ImageMap, n: Name, a: Algo)
    requires n !in Nodes(m)
    ensures Get(m, n, a) == None
    decreases |m|
  {
    if m != [] {
      assert Nodes(m) == [m[0].node] + Nodes(m[1..]);
      GetAbsent(m[1..], n, a);
    }
  }

  /** Putting keeps the keys unique. */
  lemma PutUnique(m: ImageMap, node: Name, algo: Algo, v: PropertyRef)
    requires UniqueNodes(m)
    ensures UniqueNodes(Put(m, node, algo, v))
  {
    var r := Put(m, node, algo, v);
    assert forall i :: 0 <= i < |m| ==> Nodes(m)[i] == m[i].node;
    assert forall i :: 0 <= i < |r| ==> Nodes(r)[i] == r[i].node;
  }

  /**
   * What the grouping loop writes for property `p`, if anything: when `p`
   * sits in a hash node whose first `algo` property reads `crc32` or `sha1`
   * and which has a `value` property, the first `value` property goes into
   * the parent image's entry under that algorithm.
   */
  datatype Write = Write(node: Name, algo: Algo, value: PropertyRef)

  function Contribution(props: seq<PropertyRef>, blob: seq<byte>, p: PropertyRef): Option<Write>
  {
    var parts := PathParts(p.nodePath);
    if |parts| < 3 || parts[0] != IMAGES then None
    else if !StartsWith(parts[|parts| - 1], HASH_PREFIX) then None
    else
      var siblings := Siblings(props, p.nodePath);
      var algoProp := FirstNamed(siblings, ALGO);
      var valueProp := FirstNamed(siblings, VALUE);
      if algoProp.None? || valueProp.None? then None
      else
        var algo := AlgoOf(ReadCStringFromValue(blob, algoProp.value));
        if algo.None? then None
        else Some(Write(ImageNodeOf(p.nodePath), algo.value, valueProp.value))
  }

  /** What a write means: it is keyed by the parent of a hash node and holds that node's `value` property. */
  lemma ContributionMeaning(props: seq<PropertyRef>, blob: seq<byte>, p: PropertyRef)
    requires Contribution(props, blob, p).Some?
    ensures var w := Contribution(props, blob, p).value;
      IsHashNode(p.nodePath) && w.node == ImageNodeOf(p.nodePath)
      && w.value in props && w.value.nodePath == p.nodePath && w.value.name == VALUE
      && exists a :: (a in props && a.nodePath == p.nodePath && a.name == ALGO
        && AlgoOf(ReadCStringFromValue(blob, a)) == Some(w.algo))
  {
    var siblings := Siblings(props, p.nodePath);
    SiblingsMembers(props, p.nodePath);
    FirstNamedFirst(siblings, ALGO);
    FirstNamedFirst(siblings, VALUE);
    var algoProp := FirstNamed(siblings, ALGO);
    assert algoProp.value in siblings;
  }

  /** The map after `setdefault`-style writes `ws` (a `None` writes nothing), in order. */
  function Fold(ws: seq<Option<Write>>): ImageMap
  {
    if ws == [] then []
    else
      var m := Fold(ws[..|ws| - 1]);
      match ws[|ws| - 1]
      case None => m
      case Some(w) => Put(m, w.node, w.algo, w.value)
  }

  /** What the grouping loop writes for each property, in order. */
  function Writes(props: seq<PropertyRef>, blob: seq<byte>): (r: seq<Option<Write>>)
    ensures |r| == |props|
    ensures forall i :: 0 <= i < |props| ==> r[i] == Contribution(props, blob, props[i])
  {
    seq(|props|, i requires 0 <= i < |props| => Contribution(props, blob, props[i]))
  }

  /** `group_fit_image_hashes(props, blob)`. */
  function Group(props: seq<PropertyRef>, blob: seq<byte>): ImageMap
  {
    Fold(Writes(props, blob))
  }

  /** Reference reading: the value of the last write in `ws` to `(node, algo)`. */
  function LastWrite(ws: seq<Option<Write>>, node: Name, algo: Algo): Option<PropertyRef>
  {
    if ws == [] then None
    else
      var w := ws[|ws| - 1];
      if w.Some? && w.value.node == node && w.value.algo == algo then Some(w.value.value)
      else LastWrite(ws[..|ws| - 1], node, algo)
  }

  /** A later write to the same image and algorithm overwrites an earlier one: each slot holds the last write to it. */
  lemma {:induction false} FoldLastWriteWins(ws: seq<Option<Write>>, node: Name, algo: Algo)
    ensures Get(Fold(ws), node, algo) == LastWrite(ws, node, algo)
    decreases |ws|
  {
    if ws != [] {
      FoldLastWriteWins(ws[..|ws| - 1], node, algo);
      var w := ws[|ws| - 1];
      if w.Some? {
        PutGet(Fold(ws[..|ws| - 1]), w.value.node, w.value.algo, w.value.value, node, algo);
      }
    }
  }

  /** The keys are distinct, and each is the image of some write, in order of first write. */
  lemma {:induction false} FoldKeys(ws: seq<Option<Write>>)
    ensures UniqueNodes(Fold(ws))
    ensures forall node :: node in Nodes(Fold(ws)) <==> exists i :: 0 <= i < |ws| && ws[i].Some? && ws[i].value.node == node
    decreases |ws|
  {
    if ws != [] {
      var init := ws[..|ws| - 1];
      FoldKeys(init);
      var w := ws[|ws| - 1];
      if w.Some? {
        PutUnique(Fold(init), w.value.node, w.value.algo, w.value.value);
      }
      forall node | node in Nodes(Fold(ws))
        ensures exists i :: 0 <= i < |ws| && ws[i].Some? && ws[i].value.node == node
      {
        if node in Nodes(Fold(init)) {
          var i :| 0 <= i < |init| && init[i].Some? && init[i].value.node == node;
          assert ws[i] == init[i];
        } else {
          assert ws[|ws| - 1].Some? && ws[|ws| - 1].value.node == node;
        }
      }
      forall node | exists i :: 0 <= i < |ws| && ws[i].Some? && ws[i].value.node == node
        ensures node in Nodes(Fold(ws))
      {
        var i :| 0 <= i < |ws| && ws[i].Some? && ws[i].value.node == node;
        if i < |init| {
          assert init[i] == ws[i];
        }
      }
    }
  }

  /**
   * A later hash node with the same algorithm overwrites an earlier one: the
   * result holds, for each image and algorithm, the last `value` property
   * written for it.
   */
  lemma GroupLastWriteWins(props: seq<PropertyRef>, blob: seq<byte>, node: Name, algo: Algo)
    ensures Get(Group(props, blob), node, algo) == LastWrite(Writes(props, blob), node, algo)
  {
    FoldLastWriteWins(Writes(props, blob), node, algo);
  }

  /**
   * Every key of the result is unique and is the parent of a
   * `/images/.../hash-*` node having an `algo` property that reads `crc32` or
   * `sha1` and a `value` property.
   */
  lemma GroupKeysQualify(props: seq<PropertyRef>, blob: seq<byte>)
    ensures UniqueNodes(Group(props, blob))
    ensures forall node :: node in Nodes(Group(props, blob)) ==>
      exists p :: (p in props && IsHashNode(p.nodePath) && node == ImageNodeOf(p.nodePath)
        && Contribution(props, blob, p).Some?)
  {
    var ws := Writes(props, blob);
    FoldKeys(ws);
    forall node | node in Nodes(Group(props, blob))
      ensures exists p :: (p in props && IsHashNode(p.nodePath) && node == ImageNodeOf(p.nodePath)
        && Contribution(props, blob, p).Some?)
    {
      var i :| 0 <= i < |ws| && ws[i].Some? && ws[i].value.node == node;
      ContributionMeaning(props, blob, props[i]);
    }
  }

  /** With distinct keys, looking up an image's own node reads that image's entry. */
  lemma {:induction false} GetAt(m: ImageMap, i: nat, algo: Algo)
    requires UniqueNodes(m) && i < |m|
    ensures Get(m, m[i].node, algo) == m[i].Get(algo)
    decreases i
  {
    if i > 0 {
      assert m[0].node != m[i].node;
      var tail := m[1..];
      assert forall a, b :: 0 <= a < b < |tail| ==> tail[a].node == m[a + 1].node && tail[b].node == m[b + 1].node;
      assert tail[i - 1] == m[i];
      GetAt(tail, i - 1, algo);
    }
  }

  /** The last write to a slot is one of the writes. */
  lemma {:induction false} LastWriteFrom(ws: seq<Option<Write>>, node: Name, algo: Algo)
    requires LastWrite(ws, node, algo).Some?
    ensures exists j :: 0 <= j < |ws| && ws[j] == Some(Write(node, algo, LastWrite(ws, node, algo).value))
    decreases |ws|
  {
    var w := ws[|ws| - 1];
    if w.Some? && w.value.node == node && w.value.algo == algo {
      assert ws[|ws| - 1] == Some(Write(node, algo, LastWrite(ws, node, algo).value));
    } else {
      var init := ws[..|ws| - 1];
      LastWriteFrom(init, node, algo);
      var j :| 0 <= j < |init| && init[j] == Some(Write(node, algo, LastWrite(init, node, algo).value));
      assert ws[j] == init[j];
    }
  }

  /** What an image holds under an algorithm is what some property of the tree wrote there. */
  lemma GroupEntrySource(props: seq<PropertyRef>, blob: seq<byte>, i: nat, algo: Algo)
    requires i < |Group(props, blob)| && Group(props, blob)[i].Get(algo).Some?
    ensures exists j :: (0 <= j < |props|
      && Contribution(props, blob, props[j]) == Some(Write(Group(props, blob)[i].node, algo, Group(props, blob)[i].Get(algo).value)))
  {
    var m, ws := Group(props, blob), Writes(props, blob);
    GroupKeysQualify(props, blob);
    GetAt(m, i, algo);
    GroupLastWriteWins(props, blob, m[i].node, algo);
    LastWriteFrom(ws, m[i].node, algo);
  }

  /** What the grouping writes for a property depends only on the property's node path. */
  lemma ContributionByPath(props: seq<PropertyRef>, blob: seq<byte>, p: PropertyRef, q: PropertyRef)
    ensures p.nodePath == q.nodePath ==> Contribution(props, blob, p) == Contribution(props, blob, q)
  {
  }

  /** Writes under two different algorithms hold two properties of the tree from two different hash nodes. */
  lemma ContributionsApart(props: seq<PropertyRef>, blob: seq<byte>, p: PropertyRef, q: PropertyRef)
    requires Contribution(props, blob, p).Some? && Contribution(props, blob, q).Some?
    requires Contribution(props, blob, p).value.algo != Contribution(props, blob, q).value.algo
    ensures var v, u := Contribution(props, blob, p).value.value, Contribution(props, blob, q).value.value;
      v in props && u in props && v.nodePath != u.nodePath
  {
    ContributionMeaning(props, blob, p);
    ContributionMeaning(props, blob, q);
    ContributionByPath(props, blob, p, q);
  }

  /** A crc32 write and a sha1 write to the same image hold properties of two different hash nodes. */
  lemma WrittenApart(props: seq<PropertyRef>, blob: seq<byte>, node: Name, c: PropertyRef, s: PropertyRef)
    requires exists j :: 0 <= j < |props| && Contribution(props, blob, props[j]) == Some(Write(node, Crc32, c))
    requires exists j :: 0 <= j < |props| && Contribution(props, blob, props[j]) == Some(Write(node, Sha1, s))
    ensures c in props && s in props && c.nodePath != s.nodePath
  {
    var j1 :| 0 <= j1 < |props| && Contribution(props, blob, props[j1]) == Some(Write(node, Crc32, c));
    var j2 :| 0 <= j2 < |props| && Contribution(props, blob, props[j2]) == Some(Write(node, Sha1, s));
    ContributionsApart(props, blob, props[j1], props[j2]);
  }

  /**
   * An image's crc32 and sha1 values are two properties of the tree taken
   * from two different hash nodes, since a hash node contributes under the
   * one algorithm its first `algo` property names.
   */
  lemma GroupDigestsDistinct(props: seq<PropertyRef>, blob: seq<byte>, i: nat)
    requires i < |Group(props, blob)|
    requires Group(props, blob)[i].crc32.Some? && Group(props, blob)[i].sha1.Some?
    ensures var e := Group(props, blob)[i];
      e.crc32.value in props && e.sha1.value in props && e.crc32.value.nodePath != e.sha1.value.nodePath
  {
    var e := Group(props, blob)[i];
    GroupEntrySource(props, blob, i, Crc32);
    GroupEntrySource(props, blob, i, Sha1);
    WrittenApart(props, blob, e.node, e.crc32.value, e.sha1.value);
  }

  /** The `by_path` index: every node path that has properties, with its properties in order. */
  method GroupByPath(props: seq<PropertyRef>) returns (byPath: map<Name, seq<PropertyRef>>)
    ensures forall path :: path in byPath ==> byPath[path] == Siblings(props, path)
    ensures forall path :: path !in byPath ==> Siblings(props, path) == []
  {
    byPath := map[];
    for i := 0 to |props|
      invariant forall path :: path in byPath ==> byPath[path] == Siblings(props[..i], path)
      invariant forall path :: path !in byPath ==> Siblings(props[..i], path) == []
    {
      var p := props[i];
      assert props[..i + 1][..i] == props[..i];
      if p.nodePath in byPath {
        byPath := byPath[p.nodePath := byPath[p.nodePath] + [p]];
      } else {
        byPath := byPath[p.nodePath := [p]];
      }
    }
    assert props[..|props|] == props;
  }

  /** The body of the grouping loop for one property: what it writes, if anything. */
  method ContributionAt(props: seq<PropertyRef>, byPath: map<Name, seq<PropertyRef>>, blob: seq<byte>, p: PropertyRef)
    returns (w: Option<Write>)
    requires forall path :: path in byPath ==> byPath[path] == Siblings(props, path)
    requires forall path :: path !in byPath ==> Siblings(props, path) == []
    ensures w == Contribution(props, blob, p)
  {
    var parts := PathParts(p.nodePath);
    if |parts| < 3 {
      return None;
    }
    if parts[0] != IMAGES {
      return None;
    }
    if !StartsWith(parts[|parts| - 1], HASH_PREFIX) {
      return None;
    }
    var imageNode := [SLASH] + JoinSlash(parts[..|parts| - 1]);
    var siblings := if p.nodePath in byPath then byPath[p.nodePath] else [];
    var algoProp := FirstNamed(siblings, ALGO);
    var valueProp := FirstNamed(siblings, VALUE);
    if algoProp.None? || valueProp.None? {
      return None;
    }
    var algo := ReadCStringFromValue(blob, algoProp.value);
    if algo != CRC32_NAME && algo != SHA1_NAME {
      return None;
    }
    w := Some(Write(imageNode, if algo == CRC32_NAME then Crc32 else Sha1, valueProp.value));
  }

  /** One more write folded in. */
  lemma FoldSnoc(ws: seq<Option<Write>>, i: nat)
    requires i < |ws|
    ensures Fold(ws[..i + 1]) == match ws[i]
      case None => Fold(ws[..i])
      case Some(w) => Put(Fold(ws[..i]), w.node, w.algo, w.value)
  {
    assert ws[..i + 1][..i] == ws[..i];
  }

  /** The grouping loop's step for property `i`: the map so far grows by that property's write. */
  method GroupIteration(props: seq<PropertyRef>, byPath: map<Name, seq<PropertyRef>>, blob: seq<byte>, i: nat, m: ImageMap)
    returns (next: ImageMap)
    requires i < |props|
    requires forall path :: path in byPath ==> byPath[path] == Siblings(props, path)
    requires forall path :: path !in byPath ==> Siblings(props, path) == []
    requires m == Fold(Writes(props, blob)[..i])
    ensures next == Fold(Writes(props, blob)[..i + 1])
  {
    var w := ContributionAt(props, byPath, blob, props[i]);
    FoldSnoc(Writes(props, blob), i);
    next := m;
    match w {
      case None =>
      case Some(write) =>
        next := Put(m, write.node, write.algo, write.value);
    }
  }

  /** `group_fit_image_hashes(props, blob)`. */
  method GroupFitImageHashes(props: seq<PropertyRef>, blob: seq<byte>) returns (imageHashes: ImageMap)
    ensures imageHashes == Group(props, blob)
  {
    var byPath := GroupByPath(props);
    imageHashes := [];
    for i := 0 to |props|
      invariant imageHashes == Fold(Writes(props, blob)[..i])
    {
      imageHashes := GroupIteration(props, byPath, blob, i, imageHashes);
    }
    assert Writes(props, blob)[..|props|] == Writes(props, blob);
  }

  /**
   * The copy of the grouping in the two-board patcher guards the hash-node
   * test with `parts[-2].startswith("fdt") or parts[-2].startswith("kernel")
   * or True`.
   */
  function ContributionGuarded(props: seq<PropertyRef>, blob: seq<byte>, p: PropertyRef): Option<Write>
  {
    var parts := PathParts(p.nodePath);
    if |parts| < 3 || parts[0] != IMAGES then None
    else if !(StartsWith(parts[|parts| - 2], FDT_PREFIX) || StartsWith(parts[|parts| - 2], KERNEL_PREFIX) || true) then None
    else Contribution(props, blob, p)
  }

  /** That guard is vacuous: the guarded copy writes exactly what the unguarded one does. */
  lemma GuardVacuous(props: seq<PropertyRef>, blob: seq<byte>, p: PropertyRef)
    ensures ContributionGuarded(props, blob, p) == Contribution(props, blob, p)
  {
  }

  // ---------------------------------------------------------------------------
  // detect_fit
  // ---------------------------------------------------------------------------

  /** A tree is the FIT image tree when its node paths include `/images` and `/configurations`. */
  predicate IsFitTree(data: seq<byte>, h: Hit)
  {
    IMAGES_PATH in NodePaths(data, h.offset, h.header) && CONFIGURATIONS_PATH in NodePaths(data, h.offset, h.header)
  }

  /** The test `detect_fit` makes of one tree. */
  method HasFitNodes(data: seq<byte>, h: Hit) returns (b: bool)
    ensures b == IsFitTree(data, h)
  {
    var paths := CollectNodePaths(data, h.offset, h.header);
    b := IMAGES_PATH in paths && CONFIGURATIONS_PATH in paths;
  }

  /** The outcome of `detect_fit`: no FIT tree, the first one with its properties, or a raise while parsing them. */
  datatype FitResult =
    | NoFit
    | Fit(index: nat, props: seq<PropertyRef>)
    | FitRaised(index: nat)

  /** What `detect_fit` returns once it has picked tree `k`: its properties, or the raise parsing them. */
  function FitAt(data: seq<byte>, h: Hit, k: nat): (r: FitResult)
    ensures !r.NoFit? && r.index == k
    ensures r.FitRaised? <==> Properties(data, h.offset, h.header).None?
    ensures r.Fit? ==> Some(r.props) == Properties(data, h.offset, h.header)
  {
    match Properties(data, h.offset, h.header)
    case None => FitRaised(k)
    case Some(ps) => Fit(k, ps)
  }

  /** For each tree, whether it is a FIT image tree. */
  function FitFlags(dtbs: seq<Hit>, data: seq<byte>): (r: seq<bool>)
    ensures |r| == |dtbs| && forall j :: 0 <= j < |dtbs| ==> r[j] == IsFitTree(data, dtbs[j])
  {
    seq(|dtbs|, j requires 0 <= j < |dtbs| => IsFitTree(data, dtbs[j]))
  }

  /** The first index from `k` on whose flag is set. */
  function FirstSetFrom(flags: seq<bool>, k: nat): Option<nat>
    requires k <= |flags|
    decreases |flags| - k
  {
    if k == |flags| then None
    else if flags[k] then Some(k)
    else FirstSetFrom(flags, k + 1)
  }

  lemma {:induction false} FirstSetNone(flags: seq<bool>, k: nat)
    requires k <= |flags|
    ensures FirstSetFrom(flags, k).None? <==> forall j :: k <= j < |flags| ==> !flags[j]
    decreases |flags| - k
  {
    if k < |flags| && !flags[k] {
      FirstSetNone(flags, k + 1);
    }
  }

  lemma {:induction false} FirstSetFirst(flags: seq<bool>, k: nat)
    requires k <= |flags| && FirstSetFrom(flags, k).Some?
    ensures var i := FirstSetFrom(flags, k).value;
      k <= i < |flags| && flags[i] && forall j :: k <= j < i ==> !flags[j]
    decreases |flags| - k
  {
    if !flags[k] {
      FirstSetFirst(flags, k + 1);
    }
  }

  /** The result of `detect_fit(dtbs, data)`: the first FIT tree's properties. */
  function DetectFitSpec(dtbs: seq<Hit>, data: seq<byte>): FitResult
  {
    var flags := FitFlags(dtbs, data);
    match FirstSetFrom(flags, 0)
    case None => NoFit
    case Some(i) =>
      FirstSetFirst(flags, 0);
      FitAt(data, dtbs[i], i)
  }

  /** `detect_fit` reports nothing exactly when no tree has both `/images` and `/configurations`. */
  lemma DetectFitNone(dtbs: seq<Hit>, data: seq<byte>)
    ensures DetectFitSpec(dtbs, data).NoFit? <==> forall j :: 0 <= j < |dtbs| ==> !IsFitTree(data, dtbs[j])
  {
    var flags := FitFlags(dtbs, data);
    FirstSetNone(flags, 0);
    if FirstSetFrom(flags, 0).Some? {
      FirstSetFirst(flags, 0);
    }
  }

  /**
   * Otherwise it picks the first tree with both nodes, and returns that
   * tree's properties or raises while parsing them.
   */
  lemma DetectFitFirst(dtbs: seq<Hit>, data: seq<byte>)
    requires !DetectFitSpec(dtbs, data).NoFit?
    ensures var r := DetectFitSpec(dtbs, data);
      r.index < |dtbs| && IsFitTree(data, dtbs[r.index]) && (forall j :: 0 <= j < r.index ==> !IsFitTree(data, dtbs[j]))
      && (r.FitRaised? <==> Properties(data, dtbs[r.index].offset, dtbs[r.index].header).None?)
      && (r.Fit? ==> Some(r.props) == Properties(data, dtbs[r.index].offset, dtbs[r.index].header))
  {
    FirstSetFirst(FitFlags(dtbs, data), 0);
  }

  /** `detect_fit(dtbs, data)`. */
  method DetectFit(dtbs: seq<Hit>, data: seq<byte>) returns (r: FitResult)
    ensures r == DetectFitSpec(dtbs, data)
  {
    ghost var flags := FitFlags(dtbs, data);
    for k := 0 to |dtbs|
      invariant FirstSetFrom(flags, k) == FirstSetFrom(flags, 0)
    {
      var isFit := HasFitNodes(data, dtbs[k]);
      if isFit {
        var props := ParseProperties(data, dtbs[k].offset, dtbs[k].header);
        if props.None? {
          return FitRaised(k);
        }
        return Fit(k, props.value);
      }
    }
    return NoFit;
  }
}
