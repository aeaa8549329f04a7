/**
 * The string helpers of the LED scraper (`extract_mt7981_leds.py`): the board
 * name taken from a `.dts` path, the brace-matched body of the `leds { ... }`
 * block, and the INI section rendered from the LED map.
 */
module LedScrape {
  import opened Wrappers
  import opened Seqs

  // ---------------------------------------------------------------------------
  // extract_board_name
  // ---------------------------------------------------------------------------

  const SOC_PREFIX: string := "mt7981-"
  const DTS_SUFFIX: string := ".dts"

  /** `path.split('/')[-1]`: the text after the last `/`, or all of it. */
  function LastSegment(path: string): (r: string)
  {
    if path == [] then []
    else if path[|path| - 1] == '/' then []
    else LastSegment(path[..|path| - 1]) + [path[|path| - 1]]
  }

  /** A path without `/` is its own last segment. */
  lemma {:induction false} LastSegmentNoSlash(path: string)
    requires '/' !in path
    ensures LastSegment(path) == path
  {
    if path != [] {
      assert path[..|path| - 1] + [path[|path| - 1]] == path;
      LastSegmentNoSlash(path[..|path| - 1]);
    }
  }

  /** Otherwise it is what follows the last `/`: `LastSegment(pre + "/" + seg) == seg` for any `/`-free `seg`. */
  lemma {:induction false} LastSegmentAfterSlash(pre: string, seg: string)
    requires '/' !in seg
    ensures LastSegment(pre + "/" + seg) == seg
  {
    if seg != [] {
      var init := seg[..|seg| - 1];
      assert (pre + "/" + seg)[..|pre + "/" + seg| - 1] == pre + "/" + init;
      assert init + [seg[|seg| - 1]] == seg;
      LastSegmentAfterSlash(pre, init);
    }
  }

  /** `s.replace(pat, '')`: one left-to-right pass dropping non-overlapping occurrences. */
  function RemoveAll(s: string, pat: string): (r: string)
    requires |pat| > 0
    ensures |r| <= |s|
  {
    if s == [] then []
    else if StartsWith(s, pat) then RemoveAll(s[|pat|..], pat)
    else [s[0]] + RemoveAll(s[1..], pat)
  }

  /** Text without an occurrence of the pattern passes through unchanged. */
  lemma {:induction false} RemoveAllFree(s: string, pat: string)
    requires |pat| > 0 && forall j: nat :: !OccursAt(s, pat, j)
    ensures RemoveAll(s, pat) == s
  {
    if s != [] {
      assert !OccursAt(s, pat, 0);
      forall j: nat
        ensures !OccursAt(s[1..], pat, j)
      {
        assert !OccursAt(s, pat, j + 1);
        if j + |pat| <= |s[1..]| {
          assert s[1..][j..j + |pat|] == s[j + 1..j + 1 + |pat|];
        }
      }
      RemoveAllFree(s[1..], pat);
    }
  }

  /** `extract_board_name`. */
  function ExtractBoardName(path: string): string
  {
    RemoveAll(RemoveAll(LastSegment(path), SOC_PREFIX), DTS_SUFFIX)
  }

  /** The last segment never contains `/`. */
  lemma {:induction false} LastSegmentSlashFree(path: string)
    ensures '/' !in LastSegment(path)
  {
    if path != [] && path[|path| - 1] != '/' {
      LastSegmentSlashFree(path[..|path| - 1]);
    }
  }

  /** Removing occurrences only deletes characters: one absent before is absent after. */
  lemma {:induction false} RemoveAllAbsent(s: string, pat: string, c: char)
    requires |pat| > 0 && c !in s
    ensures c !in RemoveAll(s, pat)
    decreases |s|
  {
    if s != [] {
      if StartsWith(s, pat) {
        RemoveAllAbsent(s[|pat|..], pat, c);
      } else {
        RemoveAllAbsent(s[1..], pat, c);
      }
    }
  }

  /**
   * For every path, the board name is a fragment of the file name: it
   * holds no `/`, is no longer than the last segment, and is empty for a
   * path ending in `/`.
   */
  lemma ExtractBoardNameFragment(path: string)
    ensures '/' !in ExtractBoardName(path)
    ensures |ExtractBoardName(path)| <= |LastSegment(path)|
    ensures path != [] && path[|path| - 1] == '/' ==> ExtractBoardName(path) == []
  {
    LastSegmentSlashFree(path);
    RemoveAllAbsent(LastSegment(path), SOC_PREFIX, '/');
    RemoveAllAbsent(RemoveAll(LastSegment(path), SOC_PREFIX), DTS_SUFFIX, '/');
  }

  /** No occurrence of `pat` in `name + tail` when none is in `name` and the tail starts with a character `pat` lacks. */
  lemma NoOccurrenceBeforeForeign(name: string, tail: string, pat: string)
    requires |pat| > 0 && |tail| > 0 && tail[0] !in pat
    requires forall j: nat :: !OccursAt(name, pat, j)
    requires forall j: nat :: !OccursAt(tail, pat, j)
    ensures forall j: nat :: !OccursAt(name + tail, pat, j)
  {
    var s := name + tail;
    forall j: nat
      ensures !OccursAt(s, pat, j)
    {
      if j + |pat| <= |name| {
        assert s[j..j + |pat|] == name[j..j + |pat|];
        assert !OccursAt(name, pat, j);
      } else if j < |name| && j + |pat| <= |s| {
        assert pat[|name| - j] in pat;
        assert s[j..j + |pat|][|name| - j] == tail[0] != pat[|name| - j];
      } else if j + |pat| <= |s| {
        assert s[j..j + |pat|] == tail[j - |name|..j - |name| + |pat|];
        assert !OccursAt(tail, pat, j - |name|);
      }
    }
  }

  /** Removing the prefix from the file name `mt7981-<board>.dts`. */
  lemma RemovePrefixTypical(name: string)
    requires '.' !in name
    requires forall j: nat :: !OccursAt(name, SOC_PREFIX, j)
    ensures RemoveAll(SOC_PREFIX + name + DTS_SUFFIX, SOC_PREFIX) == name + DTS_SUFFIX
  {
    var file := SOC_PREFIX + name + DTS_SUFFIX;
    assert file[..|SOC_PREFIX|] == SOC_PREFIX;
    assert file[|SOC_PREFIX|..] == name + DTS_SUFFIX;
    forall j: nat
      ensures !OccursAt(DTS_SUFFIX, SOC_PREFIX, j)
    {
    }
    NoOccurrenceBeforeForeign(name, DTS_SUFFIX, SOC_PREFIX);
    RemoveAllFree(name + DTS_SUFFIX, SOC_PREFIX);
  }

  /**
   * For the usual `<dir>/mt7981-<board>.dts` path the board name comes back
   * unchanged, provided it holds no `/`, no `.` and no `mt7981-` of its own.
   */
  lemma ExtractBoardNameTypical(dir: string, name: string)
    requires '/' !in name && '.' !in name
    requires forall j: nat :: !OccursAt(name, SOC_PREFIX, j)
    ensures ExtractBoardName(dir + "/" + SOC_PREFIX + name + DTS_SUFFIX) == name
  {
    var file := SOC_PREFIX + name + DTS_SUFFIX;
    assert '/' !in file by {
      forall k | 0 <= k < |file|
        ensures file[k] != '/'
      {
        if k < |SOC_PREFIX| {
          assert file[k] == SOC_PREFIX[k];
        } else if k < |SOC_PREFIX| + |name| {
          assert file[k] == name[k - |SOC_PREFIX|];
        } else {
          assert file[k] == DTS_SUFFIX[k - |SOC_PREFIX| - |name|];
        }
      }
    }
    assert dir + "/" + SOC_PREFIX + name + DTS_SUFFIX == dir + "/" + file;
    LastSegmentAfterSlash(dir, file);
    RemovePrefixTypical(name);
    RemoveAllSuffix(name, DTS_SUFFIX);
  }

  /** Removing from `name + pat` when `pat` starts with a character absent from `name`. */
  lemma {:induction false} RemoveAllSuffix(name: string, pat: string)
    requires |pat| > 0 && pat[0] !in name
    ensures RemoveAll(name + pat, pat) == name
  {
    if name == [] {
      assert pat[|pat|..] == [];
    } else {
      assert !StartsWith(name + pat, pat);
      assert (name + pat)[1..] == name[1..] + pat;
      RemoveAllSuffix(name[1..], pat);
    }
  }

  /**
   * A single pass does not remove an occurrence that the removal itself
   * brings together: for `mt7981-`, "mmt7981-t7981-" becomes "mt7981-".
   */
  lemma RemoveAllSinglePass(pat: string)
    requires |pat| >= 2 && pat[0] != pat[1]
    ensures RemoveAll([pat[0]] + pat + pat[1..], pat) == pat
  {
    var rest := pat + pat[1..];
    assert [pat[0]] + pat + pat[1..] == [pat[0]] + rest;
    RemoveAllKeep(pat[0], rest, pat);
    RemoveAllDrop(pat, pat[1..]);
    forall j: nat
      ensures !OccursAt(pat[1..], pat, j)
    {
    }
    RemoveAllFree(pat[1..], pat);
    assert [pat[0]] + pat[1..] == pat;
  }

  /** A character that does not start an occurrence is kept. */
  lemma RemoveAllKeep(c: char, t: string, pat: string)
    requires |pat| >= 2 && |t| >= 1 && t[0] != pat[1]
    ensures RemoveAll([c] + t, pat) == [c] + RemoveAll(t, pat)
  {
    assert ([c] + t)[1] == t[0];
    assert ([c] + t)[1..] == t;
  }

  /** An occurrence at the front is dropped. */
  lemma RemoveAllDrop(pat: string, t: string)
    requires |pat| > 0
    ensures RemoveAll(pat + t, pat) == RemoveAll(t, pat)
  {
    assert (pat + t)[..|pat|] == pat;
    assert (pat + t)[|pat|..] == t;
  }

  // ---------------------------------------------------------------------------
  // The brace scan of parse_led_gpios
  // ---------------------------------------------------------------------------

  const LEDS_OPEN: string := "leds {"

  /** Opening minus closing braces in `t`. */
  function Depth(t: string): int
  {
    if t == [] then 0
    else Depth(t[..|t| - 1]) + (if t[|t| - 1] == '{' then 1 else if t[|t| - 1] == '}' then -1 else 0)
  }

  /** `i` holds the `}` closing the block whose body starts at `s`: the first `}` at depth 0. */
  predicate FirstClose(c: string, s: nat, i: nat)
  {
    s <= i < |c| && c[i] == '}' && Depth(c[s..i]) == 0
    && forall k :: s <= k < i && c[k] == '}' ==> Depth(c[s..k]) > 0
  }

  /** The block starting at `s` is never closed. */
  predicate NoClose(c: string, s: nat)
  {
    forall k :: s <= k < |c| && c[k] == '}' ==> Depth(c[s..k]) > 0
  }

  /** The closing brace is unique, and a block is either closed or not. */
  lemma FirstCloseUnique(c: string, s: nat, i: nat, j: nat)
    ensures FirstClose(c, s, i) && FirstClose(c, s, j) ==> i == j
    ensures FirstClose(c, s, i) ==> !NoClose(c, s)
  {
  }

  /** The depth after one more character of `c` from `s`. */
  lemma DepthStep(c: string, s: nat, i: nat)
    requires s <= i < |c|
    ensures Depth(c[s..i + 1]) == Depth(c[s..i]) + (if c[i] == '{' then 1 else if c[i] == '}' then -1 else 0)
  {
    assert c[s..i + 1][..i - s] == c[s..i];
  }

  /**
   * The brace scan of `parse_led_gpios`: the text between `leds {` and its
   * matching `}`; empty when there is no `leds {` or the block is never closed.
   */
  method LedsSection(content: string) returns (section: string)
    ensures Find(content, LEDS_OPEN, 0, |content|) == -1 ==> section == ""
    ensures var start := Find(content, LEDS_OPEN, 0, |content|);
      start != -1 ==> var s := start + |LEDS_OPEN|;
        (NoClose(content, s) && section == "")
        || exists i: nat :: (FirstClose(content, s, i) && section == content[s..i])
  {
    var start := Find(content, LEDS_OPEN, 0, |content|);
    if start == -1 {
      return "";
    }
    var braceCount: nat := 0;
    var i := start + |LEDS_OPEN|;
    var s := i;
    section := "";
    while i < |content|
      invariant s <= i <= |content|
      invariant braceCount == Depth(content[s..i])
      invariant forall k :: s <= k < i && content[k] == '}' ==> Depth(content[s..k]) > 0
      decreases |content| - i
    {
      DepthStep(content, s, i);
      if content[i] == '{' {
        braceCount := braceCount + 1;
      } else if content[i] == '}' {
        if braceCount == 0 {
          section := content[s..i];
          assert FirstClose(content, s, i);
          return;
        }
        braceCount := braceCount - 1;
      }
      i := i + 1;
    }
  }

  // ---------------------------------------------------------------------------
  // format_ini_section
  // ---------------------------------------------------------------------------

  /** Python's ordering of `str`: lexicographic by code point, a proper prefix first. */
  predicate Less(a: string, b: string)
  {
    if a == [] then b != []
    else if b == [] then false
    else if a[0] != b[0] then a[0] < b[0]
    else Less(a[1..], b[1..])
  }

  lemma {:induction false} LessIrreflexive(a: string)
    ensures !Less(a, a)
  {
    if a != [] {
      LessIrreflexive(a[1..]);
    }
  }

  lemma {:induction false} LessTransitive(a: string, b: string, c: string)
    requires Less(a, b) && Less(b, c)
    ensures Less(a, c)
  {
    if a != [] && a[0] == b[0] && b[0] == c[0] {
      LessTransitive(a[1..], b[1..], c[1..]);
    }
  }

  lemma {:induction false} LessTotal(a: string, b: string)
    requires a != b
    ensures Less(a, b) || Less(b, a)
  {
    if a != [] && b != [] && a[0] == b[0] {
      assert a == [a[0]] + a[1..] && b == [b[0]] + b[1..];
      LessTotal(a[1..], b[1..]);
    }
  }

  /** `ks` lists the set `keys` in strictly ascending order: `sorted(keys)`. */
  predicate SortedOf(ks: seq<string>, keys: set<string>)
  {
    (forall j, k :: 0 <= j < k < |ks| ==> Less(ks[j], ks[k])) && (forall x :: x in ks ==> x in keys) && (forall x :: x in keys ==> x in ks)
  }

  /** There is only one sorted listing of a set. */
  lemma {:induction false} SortedOfUnique(a: seq<string>, b: seq<string>, keys: set<string>)
    requires SortedOf(a, keys) && SortedOf(b, keys)
    ensures a == b
    decreases |a|
  {
    if a != [] {
      assert a[0] in a;
    }
    if b != [] {
      assert b[0] in b;
    }
    if a != [] && b != [] {
      assert a[0] in a && a[0] in keys && a[0] in b;
      assert b[0] in b && b[0] in keys && b[0] in a;
      if a[0] != b[0] {
        var j :| 0 <= j < |b| && b[j] == a[0];
        var k :| 0 <= k < |a| && a[k] == b[0];
        LessIrreflexive(a[0]);
        LessIrreflexive(b[0]);
        assert Less(b[0], a[0]);
        assert Less(a[0], b[0]);
        LessTransitive(a[0], b[0], a[0]);
      }
      var rest := keys - {a[0]};
      forall x
        ensures x in a[1..] <==> x in rest
      {
        if x in a[1..] {
          var t :| 0 <= t < |a[1..]| && a[1..][t] == x;
          assert Less(a[0], a[t + 1]);
          LessIrreflexive(x);
        }
        if x in rest {
          var t :| 0 <= t < |a| && a[t] == x;
          assert t != 0;
          assert a[1..][t - 1] == x;
        }
      }
      forall x
        ensures x in b[1..] <==> x in rest
      {
        if x in b[1..] {
          var t :| 0 <= t < |b[1..]| && b[1..][t] == x;
          assert Less(b[0], b[t + 1]);
          LessIrreflexive(x);
        }
        if x in rest {
          var t :| 0 <= t < |b| && b[t] == x;
          assert t != 0;
          assert b[1..][t - 1] == x;
        }
      }
      SortedOfUnique(a[1..], b[1..], rest);
    }
  }

  /** `ks` with `x` inserted before the first greater key. */
  function InsertSorted(ks: seq<string>, x: string): (r: seq<string>)
    ensures |r| == |ks| + 1
  {
    if ks == [] then [x]
    else if Less(x, ks[0]) then [x] + ks
    else [ks[0]] + InsertSorted(ks[1..], x)
  }

  /** Inserting a new key into a sorted listing gives the sorted listing of the larger set. */
  lemma {:induction false} InsertSortedSpec(ks: seq<string>, keys: set<string>, x: string)
    requires SortedOf(ks, keys) && x !in keys
    ensures SortedOf(InsertSorted(ks, x), keys + {x})
    decreases |ks|
  {
    var r := InsertSorted(ks, x);
    if ks != [] {
      if x != ks[0] {
        LessTotal(x, ks[0]);
      }
      if Less(x, ks[0]) {
        forall j, k | 0 <= j < k < |r|
          ensures Less(r[j], r[k])
        {
          if j == 0 && k > 1 {
            LessTransitive(x, ks[0], ks[k - 1]);
          }
        }
      } else {
        var rest := keys - {ks[0]};
        assert SortedOf(ks[1..], rest) by {
          forall y
            ensures y in ks[1..] <==> y in rest
          {
            if y in ks[1..] {
              var t :| 0 <= t < |ks[1..]| && ks[1..][t] == y;
              assert Less(ks[0], ks[t + 1]);
              LessIrreflexive(y);
            }
            if y in rest {
              var t :| 0 <= t < |ks| && ks[t] == y;
              assert t != 0;
              assert ks[1..][t - 1] == y;
            }
          }
        }
        InsertSortedSpec(ks[1..], rest, x);
        var tail := InsertSorted(ks[1..], x);
        assert rest + {x} == (keys + {x}) - {ks[0]};
        forall k | 0 < k < |r|
          ensures Less(r[0], r[k])
        {
          assert r[k] == tail[k - 1] && tail[k - 1] in tail;
          if tail[k - 1] == x {
            LessTotal(x, ks[0]);
          } else {
            var t :| 0 <= t < |ks| && ks[t] == tail[k - 1];
            LessIrreflexive(ks[0]);
            assert t != 0;
          }
        }
      }
    }
  }

  /** `sorted(leds.keys())`, inserting the keys one at a time. */
  method SortKeys(keys: set<string>) returns (ks: seq<string>)
    ensures SortedOf(ks, keys)
  {
    ks := [];
    var rest := keys;
    while rest != {}
      invariant rest <= keys && SortedOf(ks, keys - rest)
      decreases |rest|
    {
      var x :| x in rest;
      InsertSortedSpec(ks, keys - rest, x);
      ks := InsertSorted(ks, x);
      assert keys - rest + {x} == keys - (rest - {x});
      rest := rest - {x};
    }
  }

  /** Decimal digits of a natural number, without leading zeros. */
  function NatText(n: nat): (r: string)
    ensures |r| > 0
  {
    if n < 10 then [Digit(n)] else NatText(n / 10) + [Digit(n % 10)]
  }

  function Digit(d: nat): char
    requires d < 10
  {
    "0123456789"[d]
  }

  /** The value of a string of decimal digits. */
  function DecimalValue(t: string): nat
  {
    if t == [] then 0
    else DecimalValue(t[..|t| - 1]) * 10 + (if '0' <= t[|t| - 1] <= '9' then (t[|t| - 1] - '0') as nat else 0)
  }

  /** The text of a number reads back as that number, and uses digits only. */
  lemma {:induction false} NatTextRoundTrip(n: nat)
    ensures DecimalValue(NatText(n)) == n
    ensures forall k :: 0 <= k < |NatText(n)| ==> '0' <= NatText(n)[k] <= '9'
  {
    var t := NatText(n);
    if n >= 10 {
      NatTextRoundTrip(n / 10);
      assert t[..|t| - 1] == NatText(n / 10);
    }
  }

  /** `str(n)` for an integer. */
  function IntText(n: int): string
  {
    if n < 0 then "-" + NatText(-n) else NatText(n)
  }

  const DTB_COMMENT: string := "; dtb_index = N  ; Optional: specify DTB index if needed"

  /** The line `name = N->N`. */
  function EntryLine(name: string, n: int): string
  {
    name + " = " + IntText(n) + "->" + IntText(n)
  }

  /** The keys of `ks` whose value is present, in order. */
  function PresentKeys(ks: seq<string>, leds: map<string, Option<int>>): (r: seq<string>)
    ensures |r| <= |ks| && forall x :: x in r ==> x in leds && leds[x].Some?
  {
    if ks == [] then []
    else
      var last := ks[|ks| - 1];
      PresentKeys(ks[..|ks| - 1], leds) + if last in leds && leds[last].Some? then [last] else []
  }

  /** The lines of the section for the listing `ks` of the keys. */
  function IniLines(board: string, ks: seq<string>, leds: map<string, Option<int>>): seq<string>
  {
    ["[" + board + "]", DTB_COMMENT] + Entries(ks, leds) + [""]
  }

  /** The `name = N->N` lines for the keys of `ks` whose value is present, in order. */
  function Entries(ks: seq<string>, leds: map<string, Option<int>>): seq<string>
  {
    if ks == [] then []
    else
      var last := ks[|ks| - 1];
      Entries(ks[..|ks| - 1], leds) + if last in leds && leds[last].Some? then [EntryLine(last, leds[last].value)] else []
  }

  lemma EntriesStep(ks: seq<string>, i: nat, leds: map<string, Option<int>>)
    requires i < |ks|
    ensures Entries(ks[..i + 1], leds) == Entries(ks[..i], leds)
      + if ks[i] in leds && leds[ks[i]].Some? then [EntryLine(ks[i], leds[ks[i]].value)] else []
  {
    assert ks[..i + 1][..i] == ks[..i];
  }

  /** Line `i` of the entries is the line of the `i`-th present key. */
  lemma {:induction false} EntriesOfPresentKeys(ks: seq<string>, leds: map<string, Option<int>>)
    ensures var names := PresentKeys(ks, leds);
      |Entries(ks, leds)| == |names|
      && forall i :: 0 <= i < |names| ==> Entries(ks, leds)[i] == EntryLine(names[i], leds[names[i]].value)
  {
    if ks != [] {
      EntriesOfPresentKeys(ks[..|ks| - 1], leds);
      var names := PresentKeys(ks, leds);
      assert forall i :: 0 <= i < |names| ==> names[i] in names;
    }
  }

  /** `sep.join(lines)`. */
  function Join(lines: seq<string>, sep: string): string
  {
    if lines == [] then ""
    else if |lines| == 1 then lines[0]
    else Join(lines[..|lines| - 1], sep) + sep + lines[|lines| - 1]
  }

  /**
   * The keys kept are exactly those whose value is present, still in
   * ascending order: one `name = N->N` line per such key, none for a `None`.
   */
  lemma {:induction false} PresentKeysSpec(ks: seq<string>, leds: map<string, Option<int>>)
    requires forall j, k :: 0 <= j < k < |ks| ==> Less(ks[j], ks[k])
    ensures var r := PresentKeys(ks, leds);
      (forall x :: x in r <==> x in ks && x in leds && leds[x].Some?)
      && forall j, k :: 0 <= j < k < |r| ==> Less(r[j], r[k])
  {
    if ks != [] {
      var init := ks[..|ks| - 1];
      PresentKeysSpec(init, leds);
      var p := PresentKeys(init, leds);
      forall j, k | 0 <= j < k < |PresentKeys(ks, leds)|
        ensures Less(PresentKeys(ks, leds)[j], PresentKeys(ks, leds)[k])
      {
        if k == |p| {
          var r := PresentKeys(ks, leds);
          assert r[j] in p;
          var t :| 0 <= t < |init| && init[t] == r[j];
        }
      }
    }
  }

  /** The listed part of the output is a newline-separated run of lines with a newline after the last. */
  lemma {:induction false} JoinTrailingEmpty(lines: seq<string>)
    requires |lines| >= 2 && lines[|lines| - 1] == ""
    ensures Join(lines, "\n") == Join(lines[..|lines| - 1], "\n") + "\n"
  {
  }

  /** The body of `for led_name in ...`: one `name = N->N` line appended per key whose value is present. */
  method AppendEntries(lines: seq<string>, ks: seq<string>, leds: map<string, Option<int>>) returns (out: seq<string>)
    requires forall x :: x in ks ==> x in leds
    ensures out == lines + Entries(ks, leds)
  {
    out := lines;
    for i := 0 to |ks|
      invariant out == lines + Entries(ks[..i], leds)
    {
      EntriesStep(ks, i, leds);
      var ledName := ks[i];
      assert ledName in ks;
      var gpioNum := leds[ledName];
      if gpioNum.Some? {
        out := out + [EntryLine(ledName, gpioNum.value)];
      }
    }
    assert ks[..|ks|] == ks;
  }

  /** `format_ini_section(board_name, leds)`. */
  method FormatIniSection(board: string, leds: map<string, Option<int>>) returns (text: string)
    ensures |leds| == 0 ==> text == ""
    ensures |leds| > 0 ==> exists ks :: SortedOf(ks, leds.Keys) && text == Join(IniLines(board, ks, leds), "\n")
  {
    if |leds| == 0 {
      return "";
    }
    var lines := ["[" + board + "]"];
    lines := lines + [DTB_COMMENT];
    var ks := SortKeys(leds.Keys);
    assert forall x :: x in ks ==> x in leds;
    lines := AppendEntries(lines, ks, leds);
    lines := lines + [""];
    assert lines == IniLines(board, ks, leds);
    text := Join(lines, "\n");
  }

  /**
   * A non-empty map renders as the `[board]` header, the dtb_index comment and
   * the entry lines, each followed by a newline.
   */
  lemma {:induction false} IniShape(board: string, ks: seq<string>, leds: map<string, Option<int>>)
    ensures var lines := IniLines(board, ks, leds);
      var text := Join(lines, "\n");
      |lines| == 3 + |PresentKeys(ks, leds)|
      && (forall i :: 2 <= i < |lines| - 1 ==> lines[i] == EntryLine(PresentKeys(ks, leds)[i - 2], leds[PresentKeys(ks, leds)[i - 2]].value))
      && lines[0] == "[" + board + "]" && lines[1] == DTB_COMMENT
      && text == Join(lines[..|lines| - 1], "\n") + "\n"
  {
    var names, es, lines := PresentKeys(ks, leds), Entries(ks, leds), IniLines(board, ks, leds);
    EntriesOfPresentKeys(ks, leds);
    assert |lines| == 3 + |es|;
    forall i | 2 <= i < |lines| - 1
      ensures lines[i] == EntryLine(names[i - 2], leds[names[i - 2]].value)
    {
      assert lines[i] == es[i - 2];
    }
    JoinTrailingEmpty(lines);
  }
}
