/**
  What the Gmsh mesh reader computes, phase by phase, as functions of the
  input lines: the nodes-section keyword and format, the node count, the node
  lines and the node-number slots, the merge of redundant vertices, the section
  keywords, the element lines, and the normal flip.

  Geometry is not computed here.  The transformation applied to the vertices,
  the test that two vertices coincide and the decision to flip a panel are
  given functions.
*/
module GmshSpec {
  import opened Outcomes
  import opened GmshSyntax

  /** The reasons `RWGErrExit` stops the program; line numbers count from 1. */
  datatype Failure =
    | NoNodeKeyword
    | InvalidNodeCount
    | TooFewNodes
    | InvalidNode(line: nat)
    | NodeIndexTooLarge
    | NodesNotTerminated
    | UnexpectedKeyword(line: nat)
    | ElementsNotInitiated
    | NoElementCount
    | InvalidElementCount(line: nat)
    | TooFewElements
    | InvalidElement(line: nat)
    | TooManyRefPoints(line: nat)

  /** Inputs on which the C code has no defined behaviour: a negative node count
      (the allocation size wraps around), or an index outside `GMSH2HR`, or a
      vertex slot `VI[k]` read before any element line set it, or a triangle
      on a node no node line named (its `GMSH2HR` entry is -1, and the panel
      reads the vertex before the vertex array), or, with panels to orient, a
      reference point on such a node. */
  datatype Hazard =
    | NegativeNodeCount
    | NodeSlotOutOfRange(line: nat)
    | VertexIndexUnset(line: nat)
    | VertexSlotOutOfRange(line: nat)
    | UnmappedVertex(line: nat)
    | UnmappedRefPoint

  datatype Outcome<+T> = Done(value: T) | Exit(failure: Failure) | Undefined(hazard: Hazard)

  type Triple = s: seq<int> | |s| == 3 witness [0, 0, 0]

  /** A panel: its three vertex slots and its `Index`. */
  datatype Panel = Panel(vi: Triple, index: int)

  /** What a successful read leaves in the object. */
  datatype Mesh = Mesh(vertices: seq<Point>, redundant: nat, numElements: nat, panels: seq<Panel>, refs: seq<int>)

  // ---------------------------------------------------------------- keyword scan

  /** The format a line selects when it opens the nodes section, if it does. */
  function NodeKeyword(l: Line): Option<Format> {
    if StartsWith(l.text, NodeStartKeyword(Legacy)) then Some(Legacy)
    else if StartsWith(l.text, NodeStartKeyword(New)) then Some(New)
    else None
  }

  /** Lines are skipped until one opens the nodes section: its format, and the
      position after it. */
  function FindNodeKeyword(lines: seq<Line>, pos: nat): (r: Outcome<(Format, nat)>)
    requires pos <= |lines|
    ensures r == Exit(NoNodeKeyword) || (r.Done? && pos < r.value.1 <= |lines|)
    decreases |lines| - pos
  {
    if pos == |lines| then Exit(NoNodeKeyword)
    else match NodeKeyword(lines[pos])
      case Some(f) => Done((f, pos + 1))
      case None => FindNodeKeyword(lines, pos + 1)
  }

  /** The scan fails exactly when no line from `pos` on opens the nodes
      section; otherwise it stops at the first line that does, and that line
      gives the format. */
  lemma {:induction false} FindNodeKeywordSpec(lines: seq<Line>, pos: nat)
    requires pos <= |lines|
    ensures var r := FindNodeKeyword(lines, pos);
            (r.Exit? <==> forall q | pos <= q < |lines| :: NodeKeyword(lines[q]).None?)
            && (r.Done? ==> NodeKeyword(lines[r.value.1 - 1]) == Some(r.value.0)
                            && forall q | pos <= q < r.value.1 - 1 :: NodeKeyword(lines[q]).None?)
    decreases |lines| - pos
  {
    if pos < |lines| && NodeKeyword(lines[pos]).None? {
      FindNodeKeywordSpec(lines, pos + 1);
    }
  }

  /** `$NOD` and `$Nodes` are told apart by case: a `$Nodes` line selects the current format. */
  lemma NodesLineSelectsNew(l: Line)
    requires StartsWith(l.text, "$Nodes")
    ensures NodeKeyword(l) == Some(New)
  {
    assert l.text[3] == 'd';
  }

  // ---------------------------------------------------------------- node count

  /** `NumVertices = atoi(line)`: zero or a missing line is an error. */
  function NodeCount(lines: seq<Line>, pos: nat): Outcome<nat> {
    if pos >= |lines| then Exit(InvalidNodeCount)
    else
      var n := Atoi(lines[pos].text);
      if n == 0 then Exit(InvalidNodeCount)
      else if n < 0 then Undefined(NegativeNodeCount)
      else Done(n)
  }

  // ---------------------------------------------------------------- node lines

  /** `GMSH2HR` as allocated: `2*NumVertices` slots, all -1. */
  function Unmapped(n: nat): (m: seq<int>)
    ensures |m| == 2 * n && forall s | 0 <= s < 2 * n :: m[s] == -1
  {
    seq(2 * n, _ => -1)
  }

  /** The node lines from `nv` on: each must convert a node number and three
      coordinates; a node number above `2*NumVertices` is an error; the vertex
      is stored in slot `nv` and `GMSH2HR[NodeIndex] = nv`. */
  function ReadNodes(lines: seq<Line>, pos: nat, n: nat, nv: nat, slots: seq<int>, verts: seq<Point>)
    : (r: Outcome<(seq<int>, seq<Point>)>)
    requires nv <= n && |slots| == 2 * n
    ensures r.Done? ==> |r.value.0| == 2 * n && |r.value.1| == |verts| + n - nv
    decreases n - nv
  {
    if nv == n then Done((slots, verts))
    else
      var q := pos + nv;
      if q >= |lines| then Exit(TooFewNodes)
      else match NodeFields(lines[q].tokens)
        case None => Exit(InvalidNode(q + 1))
        case Some((index, p)) =>
          if index > 2 * n then Exit(NodeIndexTooLarge)
          else if index < 0 || index == 2 * n then Undefined(NodeSlotOutOfRange(q + 1))
          else ReadNodes(lines, pos, n, nv + 1, slots[index := nv], verts + [p])
  }

  /** The node number a node line names, if it is a valid node line. */
  function NodeNumber(l: Line): Option<int> {
    match NodeFields(l.tokens)
    case None => None
    case Some((index, _)) => Some(index)
  }

  /** The vertex a node line gives, if it is a valid node line. */
  function Coords(l: Line): Option<Point> {
    match NodeFields(l.tokens)
    case None => None
    case Some((_, p)) => Some(p)
  }

  /** Among the first `count` node lines, the position of the last one naming
      node `s`, or -1 when none does. */
  function LastNaming(lines: seq<Line>, pos: nat, count: nat, s: int): int
    requires pos + count <= |lines|
    decreases count
  {
    if count == 0 then -1
    else if NodeNumber(lines[pos + count - 1]) == Some(s) then count - 1
    else LastNaming(lines, pos, count - 1, s)
  }

  /** After the node lines every slot of `GMSH2HR` holds the position of the
      last node line naming that slot's node, or -1; vertex `k` is the point
      on node line `k`. */
  lemma {:induction false} NodesMap(lines: seq<Line>, pos: nat, n: nat, nv: nat, slots: seq<int>, verts: seq<Point>)
    requires nv <= n && |slots| == 2 * n && |verts| == nv && pos + nv <= |lines|
    requires forall s | 0 <= s < 2 * n :: slots[s] == LastNaming(lines, pos, nv, s)
    ensures var r := ReadNodes(lines, pos, n, nv, slots, verts);
            r.Done? ==> pos + n <= |lines| && |r.value.1| == n && r.value.1[..nv] == verts
                        && (forall k | nv <= k < n :: Coords(lines[pos + k]) == Some(r.value.1[k]))
                        && forall s | 0 <= s < 2 * n :: r.value.0[s] == LastNaming(lines, pos, n, s)
    decreases n - nv
  {
    var q := pos + nv;
    if nv < n && q < |lines| && NodeFields(lines[q].tokens).Some? {
      var (index, p) := NodeFields(lines[q].tokens).value;
      if 0 <= index < 2 * n {
        var slots' := slots[index := nv];
        forall s | 0 <= s < 2 * n
          ensures slots'[s] == LastNaming(lines, pos, nv + 1, s)
        {
          assert NodeNumber(lines[q]) == Some(index);
        }
        NodesMap(lines, pos, n, nv + 1, slots', verts + [p]);
        var r := ReadNodes(lines, pos, n, nv + 1, slots', verts + [p]);
        if r.Done? {
          assert r.value.1[..nv] == r.value.1[..nv + 1][..nv];
          assert r.value.1[nv] == r.value.1[..nv + 1][nv];
          assert Coords(lines[q]) == Some(p);
        }
      }
    }
  }

  /** On success every one of the `NumVertices` node lines named a node in `0 .. 2*NumVertices-1`. */
  lemma {:induction false} NodesAccepted(lines: seq<Line>, pos: nat, n: nat, nv: nat, slots: seq<int>, verts: seq<Point>)
    requires nv <= n && |slots| == 2 * n && pos + nv <= |lines|
    ensures ReadNodes(lines, pos, n, nv, slots, verts).Done? ==>
              pos + n <= |lines|
              && forall q | pos + nv <= q < pos + n :: NodeNumber(lines[q]).Some? && 0 <= NodeNumber(lines[q]).value < 2 * n
    decreases n - nv
  {
    var q := pos + nv;
    if nv < n && q < |lines| && NodeFields(lines[q].tokens).Some? {
      var (index, p) := NodeFields(lines[q].tokens).value;
      if 0 <= index < 2 * n {
        assert NodeNumber(lines[q]) == Some(index);
        NodesAccepted(lines, pos, n, nv + 1, slots[index := nv], verts + [p]);
      }
    }
  }

  /** Each node line stores a vertex position below `NumVertices`, so every
      entry of `GMSH2HR` stays a vertex or -1. */
  lemma {:induction false} NodesInRange(lines: seq<Line>, pos: nat, n: nat, nv: nat, slots: seq<int>, verts: seq<Point>)
    requires nv <= n && |slots| == 2 * n && InRange(slots, n)
    ensures var r := ReadNodes(lines, pos, n, nv, slots, verts);
            r.Done? ==> InRange(r.value.0, n)
    decreases n - nv
  {
    var q := pos + nv;
    if nv < n && q < |lines| && NodeFields(lines[q].tokens).Some? {
      var (index, p) := NodeFields(lines[q].tokens).value;
      if 0 <= index < 2 * n {
        NodesInRange(lines, pos, n, nv + 1, slots[index := nv], verts + [p]);
      }
    }
  }

  // ---------------------------------------------------------------- redundant vertices

  /** `GMSH2HR` after every entry equal to `j` is rewritten to `i`. */
  function Remap(slots: seq<int>, j: int, i: int): (r: seq<int>)
    ensures |r| == |slots|
  {
    seq(|slots|, k requires 0 <= k < |slots| => if slots[k] == j then i else slots[k])
  }

  /** Row `i` of the merge from column `j` on: each later vertex that coincides
      with vertex `i` has its references moved to `i` and is counted. */
  function MergeRow(verts: seq<Point>, near: (Point, Point) -> bool, i: nat, j: nat, slots: seq<int>, count: nat)
    : (r: (seq<int>, nat))
    requires i < |verts|
    ensures |r.0| == |slots| && count <= r.1
    decreases |verts| - j
  {
    if j >= |verts| then (slots, count)
    else if near(verts[i], verts[j]) then MergeRow(verts, near, i, j + 1, Remap(slots, j, i), count + 1)
    else MergeRow(verts, near, i, j + 1, slots, count)
  }

  /** The merge from row `i` on: `GMSH2HR` and `NumRedundantVertices` afterwards. */
  function Merge(verts: seq<Point>, near: (Point, Point) -> bool, i: nat, slots: seq<int>, count: nat)
    : (r: (seq<int>, nat))
    ensures |r.0| == |slots| && count <= r.1
    decreases |verts| - i
  {
    if i >= |verts| then (slots, count)
    else
      var (m, c) := MergeRow(verts, near, i, i + 1, slots, count);
      Merge(verts, near, i + 1, m, c)
  }

  /** The entries of `GMSH2HR` point at a vertex or are -1. */
  predicate InRange(slots: seq<int>, n: nat) {
    forall k | 0 <= k < |slots| :: -1 <= slots[k] < n
  }

  /** Entry by entry, `m` is `slots` with some references moved to lower-numbered
      vertices; unset entries stay -1 and set entries stay set. */
  predicate Lowered(slots: seq<int>, m: seq<int>) {
    |m| == |slots|
    && forall k | 0 <= k < |slots| :: m[k] <= slots[k] && (m[k] == -1 <==> slots[k] == -1)
  }

  lemma LoweredTrans(a: seq<int>, b: seq<int>, c: seq<int>)
    requires Lowered(a, b) && Lowered(b, c)
    ensures Lowered(a, c)
  {
  }

  /** Each rewrite moves references from `j` down to `i < j`. */
  lemma RemapLowers(slots: seq<int>, n: nat, j: nat, i: nat)
    requires InRange(slots, n) && i < j < n
    ensures InRange(Remap(slots, j, i), n) && Lowered(slots, Remap(slots, j, i))
  {
  }

  lemma {:induction false} MergeRowLowers(verts: seq<Point>, near: (Point, Point) -> bool, i: nat, j: nat,
                                          slots: seq<int>, count: nat)
    requires i < j && i < |verts| && InRange(slots, |verts|)
    ensures var r := MergeRow(verts, near, i, j, slots, count);
            InRange(r.0, |verts|) && Lowered(slots, r.0) && count <= r.1
    decreases |verts| - j
  {
    if j < |verts| {
      var slots' := if near(verts[i], verts[j]) then Remap(slots, j, i) else slots;
      var count' := if near(verts[i], verts[j]) then count + 1 else count;
      if near(verts[i], verts[j]) {
        RemapLowers(slots, |verts|, j, i);
      }
      MergeRowLowers(verts, near, i, j + 1, slots', count');
      LoweredTrans(slots, slots', MergeRow(verts, near, i, j + 1, slots', count').0);
    }
  }

  /** The merge keeps every entry of `GMSH2HR` a vertex or -1, only ever moves a
      reference to a lower-numbered vertex, and leaves unset slots unset. */
  lemma {:induction false} MergeLowers(verts: seq<Point>, near: (Point, Point) -> bool, i: nat,
                                       slots: seq<int>, count: nat)
    requires InRange(slots, |verts|)
    ensures var r := Merge(verts, near, i, slots, count);
            InRange(r.0, |verts|) && Lowered(slots, r.0) && count <= r.1
    decreases |verts| - i
  {
    if i < |verts| {
      var (m, c) := MergeRow(verts, near, i, i + 1, slots, count);
      MergeRowLowers(verts, near, i, i + 1, slots, count);
      MergeLowers(verts, near, i + 1, m, c);
      LoweredTrans(slots, m, Merge(verts, near, i + 1, m, c).0);
    }
  }

  /** No two vertices coincide: `GMSH2HR` is untouched and no vertex is redundant. */
  lemma {:induction false} MergeNothingNear(verts: seq<Point>, near: (Point, Point) -> bool, i: nat,
                                            slots: seq<int>, count: nat)
    requires forall a, b | 0 <= a < b < |verts| :: !near(verts[a], verts[b])
    ensures Merge(verts, near, i, slots, count) == (slots, count)
    decreases |verts| - i
  {
    if i < |verts| {
      RowNothingNear(verts, near, i, i + 1, slots, count);
      MergeNothingNear(verts, near, i + 1, slots, count);
    }
  }

  lemma {:induction false} RowNothingNear(verts: seq<Point>, near: (Point, Point) -> bool, i: nat, j: nat,
                                          slots: seq<int>, count: nat)
    requires i < |verts| && i < j
    requires forall a, b | 0 <= a < b < |verts| :: !near(verts[a], verts[b])
    ensures MergeRow(verts, near, i, j, slots, count) == (slots, count)
    decreases |verts| - j
  {
    if j < |verts| {
      RowNothingNear(verts, near, i, j + 1, slots, count);
    }
  }

  /** Three coinciding vertices are three redundant pairs, not two redundant
      vertices, and every reference ends up at vertex 0. */
  lemma ThreeCoincident(verts: seq<Point>, near: (Point, Point) -> bool, slots: seq<int>)
    requires |verts| == 3
    requires forall a, b | 0 <= a < b < 3 :: near(verts[a], verts[b])
    requires forall k | 0 <= k < |slots| :: 0 <= slots[k] < 3
    ensures Merge(verts, near, 0, slots, 0).1 == 3
    ensures forall k | 0 <= k < |slots| :: Merge(verts, near, 0, slots, 0).0[k] == 0
  {
    assert near(verts[0], verts[1]) && near(verts[0], verts[2]) && near(verts[1], verts[2]);
    var m0 := Remap(slots, 1, 0);
    var m1 := Remap(m0, 2, 0);
    assert MergeRow(verts, near, 0, 3, m1, 2) == (m1, 2);
    assert MergeRow(verts, near, 0, 2, m0, 1) == (m1, 2);
    assert MergeRow(verts, near, 0, 1, slots, 0) == (m1, 2);
    var m2 := Remap(m1, 2, 1);
    assert MergeRow(verts, near, 1, 3, m2, 3) == (m2, 3);
    assert MergeRow(verts, near, 1, 2, m1, 2) == (m2, 3);
    assert MergeRow(verts, near, 2, 3, m2, 3) == (m2, 3);
    assert Merge(verts, near, 3, m2, 3) == (m2, 3);
    assert Merge(verts, near, 2, m2, 3) == (m2, 3);
    assert Merge(verts, near, 1, m1, 2) == (m2, 3);
    assert Merge(verts, near, 0, slots, 0) == (m2, 3);
  }

  /** The vertices from `j` on that coincide with vertex `i`, counted. */
  function NearCount(verts: seq<Point>, near: (Point, Point) -> bool, i: nat, j: nat): nat
    requires i < |verts|
    decreases |verts| - j
  {
    if j >= |verts| then 0
    else (if near(verts[i], verts[j]) then 1 else 0) + NearCount(verts, near, i, j + 1)
  }

  /** The pairs `a < b` with `a >= i` of coinciding vertices, counted. */
  function NearPairs(verts: seq<Point>, near: (Point, Point) -> bool, i: nat): nat
    decreases |verts| - i
  {
    if i >= |verts| then 0 else NearCount(verts, near, i, i + 1) + NearPairs(verts, near, i + 1)
  }

  /** Row `i` adds to the count one for each later vertex coinciding with
      vertex `i`, whatever the rewrites of `GMSH2HR` along the way. */
  lemma {:induction false} MergeRowCount(verts: seq<Point>, near: (Point, Point) -> bool, i: nat, j: nat,
                                         slots: seq<int>, count: nat)
    requires i < |verts|
    ensures MergeRow(verts, near, i, j, slots, count).1 == count + NearCount(verts, near, i, j)
    decreases |verts| - j
  {
    if j < |verts| {
      if near(verts[i], verts[j]) {
        MergeRowCount(verts, near, i, j + 1, Remap(slots, j, i), count + 1);
      } else {
        MergeRowCount(verts, near, i, j + 1, slots, count);
      }
    }
  }

  /** `NumRedundantVertices` ends up as the number of coinciding pairs
      `a < b`, not the number of vertices made redundant. */
  lemma {:induction false} MergeCount(verts: seq<Point>, near: (Point, Point) -> bool, i: nat,
                                      slots: seq<int>, count: nat)
    ensures Merge(verts, near, i, slots, count).1 == count + NearPairs(verts, near, i)
    decreases |verts| - i
  {
    if i < |verts| {
      var (m, c) := MergeRow(verts, near, i, i + 1, slots, count);
      MergeRowCount(verts, near, i, i + 1, slots, count);
      MergeCount(verts, near, i + 1, m, c);
    }
  }

  // ---------------------------------------------------------------- section keywords

  /** After the node lines: the end-of-nodes keyword of the format, the
      start-of-elements keyword of the format, then the element count, which
      must convert and be non-negative.  The count and the position after it. */
  function Headers(lines: seq<Line>, pos: nat, f: Format): Outcome<(nat, nat)> {
    if pos >= |lines| then Exit(NodesNotTerminated)
    else if !StartsWith(lines[pos].text, NodeEndKeyword(f)) then Exit(UnexpectedKeyword(pos + 1))
    else if pos + 1 >= |lines| then Exit(ElementsNotInitiated)
    else if !StartsWith(lines[pos + 1].text, ElmStartKeyword(f)) then Exit(UnexpectedKeyword(pos + 2))
    else if pos + 2 >= |lines| then Exit(NoElementCount)
    else
      var toks := lines[pos + 2].tokens;
      var count := ScanInts(toks, 0, 1);
      if |count| != 1 || count[0] < 0 then Exit(InvalidElementCount(pos + 3))
      else Done((count[0], pos + 3))
  }

  /** The keywords of the two formats do not mix: a legacy node section closed
      by `$EndNodes` is refused at that line. */
  lemma MixedKeywordsRefused(lines: seq<Line>, pos: nat)
    requires pos < |lines| && StartsWith(lines[pos].text, "$EndNodes")
    ensures Headers(lines, pos, Legacy) == Exit(UnexpectedKeyword(pos + 1))
  {
    assert lines[pos].text[1] == 'E' && lines[pos].text[2] == 'n';
  }

  // ---------------------------------------------------------------- element lines

  /** The element lines read so far: panels, reference points and `VI`. */
  datatype Elements = Elements(panels: seq<Panel>, refs: seq<int>, vi: seq<Option<int>>)

  const NoElements: Elements := Elements([], [], [None, None, None])

  /** `VI[k]` can be looked up in `GMSH2HR`. */
  predicate Resolves(slots: seq<int>, v: Option<int>) {
    v.Some? && 0 <= v.value < |slots|
  }

  function HazardOf(v: Option<int>, line: nat): Hazard {
    if v.None? then VertexIndexUnset(line) else VertexSlotOutOfRange(line)
  }

  /** The element switch: a point appends `GMSH2HR[VI[0]]` to the reference
      points unless there already are `MAXREFPTS`; a triangle appends a panel on
      `GMSH2HR[VI[0..2]]` whose `Index` is the number of panels before it (a
      slot of -1 there is a read before the vertex array); any other type is
      ignored. */
  function Dispatch(elType: int, vi: seq<Option<int>>, slots: seq<int>, panels: seq<Panel>, refs: seq<int>,
                    line: nat): Outcome<(seq<Panel>, seq<int>)>
    requires |vi| == 3
  {
    if elType == TypePoint then
      if |refs| == MaxRefPts then Exit(TooManyRefPoints(line))
      else if !Resolves(slots, vi[0]) then Undefined(HazardOf(vi[0], line))
      else Done((panels, refs + [slots[vi[0].value]]))
    else if elType == TypeTriangle then
      if !Resolves(slots, vi[0]) then Undefined(HazardOf(vi[0], line))
      else if !Resolves(slots, vi[1]) then Undefined(HazardOf(vi[1], line))
      else if !Resolves(slots, vi[2]) then Undefined(HazardOf(vi[2], line))
      else if slots[vi[0].value] == -1 || slots[vi[1].value] == -1 || slots[vi[2].value] == -1 then
        Undefined(UnmappedVertex(line))
      else Done((panels + [Panel([slots[vi[0].value], slots[vi[1].value], slots[vi[2].value]], |panels|)], refs))
    else Done((panels, refs))
  }

  /** What `fgets` and the format's `sscanf` patterns make of one element
      line: it is missing (end of file), it does not parse, or its fields. */
  datatype ElementLine = Missing | Invalid | Parsed(fields: ElementFields)

  function ReadElementLine(lines: seq<Line>, q: nat, f: Format): ElementLine {
    if q >= |lines| then Missing
    else match ParseElement(f, lines[q].tokens)
      case None => Invalid
      case Some(fields) => Parsed(fields)
  }

  /** The `count` element lines from line `pos` on, each as its own line reads. */
  function ElementLines(lines: seq<Line>, pos: nat, f: Format, count: nat): (r: seq<ElementLine>)
    ensures |r| == count
    decreases count
  {
    if count == 0 then [] else [ReadElementLine(lines, pos, f)] + ElementLines(lines, pos + 1, f, count - 1)
  }

  /** Element line `i` of the section is line `pos + i` of the file. */
  lemma {:induction false} ElementLinesAt(lines: seq<Line>, pos: nat, f: Format, count: nat, i: nat)
    requires i < count
    ensures ElementLines(lines, pos, f, count)[i] == ReadElementLine(lines, pos + i, f)
    decreases count
  {
    if i > 0 {
      ElementLinesAt(lines, pos + 1, f, count - 1, i - 1);
    }
  }

  /** The element lines from `ne` on, in order: the first that is missing or
      does not parse, or that the switch refuses, ends the read.  `pos` is the
      file position of the first element line, for the line numbers reported. */
  function ReadElements(els: seq<ElementLine>, pos: nat, slots: seq<int>, ne: nat, acc: Elements): Outcome<Elements>
    requires ne <= |els| && |acc.vi| == 3
    decreases |els| - ne
  {
    if ne == |els| then Done(acc)
    else match els[ne]
      case Missing => Exit(TooFewElements)
      case Invalid => Exit(InvalidElement(pos + ne + 1))
      case Parsed(fields) =>
        var vi := UpdateVI(acc.vi, fields.vertices);
        match Dispatch(fields.elType, vi, slots, acc.panels, acc.refs, pos + ne + 1)
        case Exit(e) => Exit(e)
        case Undefined(h) => Undefined(h)
        case Done((panels, refs)) => ReadElements(els, pos, slots, ne + 1, Elements(panels, refs, vi))
  }

  /** The element table's bookkeeping: each panel's `Index` is its position,
      there are at most as many panels as element lines, and at most `MAXREFPTS`
      reference points. */
  predicate WellIndexed(panels: seq<Panel>) {
    forall np | 0 <= np < |panels| :: panels[np].index == np
  }

  /** One element line adds at most one panel, numbered by its position, and
      never takes the reference points past `MAXREFPTS`. */
  lemma DispatchBookkeeping(elType: int, vi: seq<Option<int>>, slots: seq<int>, panels: seq<Panel>, refs: seq<int>,
                            line: nat)
    requires |vi| == 3 && WellIndexed(panels) && |refs| <= MaxRefPts
    ensures var d := Dispatch(elType, vi, slots, panels, refs, line);
            d.Done? ==> WellIndexed(d.value.0) && |d.value.0| <= |panels| + 1 && |d.value.1| <= MaxRefPts
  {
  }

  lemma {:induction false} ElementsBookkeeping(els: seq<ElementLine>, pos: nat, slots: seq<int>, ne: nat, acc: Elements)
    requires ne <= |els| && |acc.vi| == 3
    requires WellIndexed(acc.panels) && |acc.panels| <= ne && |acc.refs| <= MaxRefPts
    ensures var r := ReadElements(els, pos, slots, ne, acc);
            r.Done? ==> WellIndexed(r.value.panels) && |r.value.panels| <= |els| && |r.value.refs| <= MaxRefPts
                        && |r.value.vi| == 3
    decreases |els| - ne
  {
    if ne < |els| && els[ne].Parsed? {
      var fields := els[ne].fields;
      var vi := UpdateVI(acc.vi, fields.vertices);
      var d := Dispatch(fields.elType, vi, slots, acc.panels, acc.refs, pos + ne + 1);
      if d.Done? {
        DispatchBookkeeping(fields.elType, vi, slots, acc.panels, acc.refs, pos + ne + 1);
        ElementsBookkeeping(els, pos, slots, ne + 1, Elements(d.value.0, d.value.1, vi));
      }
    }
  }

  /** Once `MAXREFPTS` reference points are declared, a further point element is an error. */
  lemma OneRefPointTooMany(els: seq<ElementLine>, pos: nat, slots: seq<int>, ne: nat, acc: Elements)
    requires ne < |els| && |acc.vi| == 3 && |acc.refs| == MaxRefPts
    requires els[ne].Parsed? && els[ne].fields.elType == TypePoint
    ensures ReadElements(els, pos, slots, ne, acc) == Exit(TooManyRefPoints(pos + ne + 1))
  {
  }

  // ---------------------------------------------------------------- normals

  /** A flipped panel: vertices 0 and 2 trade places. */
  function Swap02(p: Panel): (r: Panel)
    ensures r.index == p.index && r.vi[1] == p.vi[1]
    ensures r.vi[0] == p.vi[2] && r.vi[2] == p.vi[0]
  {
    Panel([p.vi[2], p.vi[1], p.vi[0]], p.index)
  }

  /** Flipping twice restores the panel, and a flip keeps the panel's vertices. */
  lemma Swap02Involution(p: Panel)
    ensures Swap02(Swap02(p)) == p
    ensures multiset(Swap02(p).vi) == multiset(p.vi)
  {
    var a, b, c := p.vi[0], p.vi[1], p.vi[2];
    assert Swap02(Swap02(p)).vi == p.vi;
    assert Swap02(p).vi == [c] + [b] + [a];
    assert p.vi == [a] + [b] + [c];
    assert multiset([c] + [b] + [a]) == multiset{c} + multiset{b} + multiset{a};
    assert multiset([a] + [b] + [c]) == multiset{a} + multiset{b} + multiset{c};
  }

  /** The panels after the normal check: with at least one reference point,
      each panel the given test says faces the wrong way is flipped; without
      any, nothing changes. */
  function FlipAll(panels: seq<Panel>, refs: seq<int>, flips: (Panel, seq<int>) -> bool): (r: seq<Panel>)
    ensures |r| == |panels|
    ensures forall np | 0 <= np < |panels| :: r[np].index == panels[np].index && r[np].vi[1] == panels[np].vi[1]
    ensures forall np | 0 <= np < |panels| :: r[np] == panels[np] || r[np] == Swap02(panels[np])
    ensures refs == [] ==> r == panels
  {
    if |refs| == 0 then panels
    else
      var r := seq(|panels|, np requires 0 <= np < |panels| =>
                     if flips(panels[np], refs) then Swap02(panels[np]) else panels[np]);
      assert forall np | 0 <= np < |panels| :: r[np] == panels[np] || r[np] == Swap02(panels[np]);
      r
  }

  // ---------------------------------------------------------------- the whole file

  /** `ApplyGTransformation`: the given transformation applied to every vertex, if there is one. */
  function Transform(gt: Option<Point -> Point>, verts: seq<Point>): (r: seq<Point>)
    ensures |r| == |verts|
  {
    match gt
    case None => verts
    case Some(t) => seq(|verts|, k requires 0 <= k < |verts| => t(verts[k]))
  }

  /** What the nodes section yields: the format, the position of the count
      line, the node count, `GMSH2HR` and the vertices as read. */
  datatype NodeSection = NodeSection(format: Format, countLine: nat, n: nat, slots: seq<int>, vertices: seq<Point>)

  /** The keyword scan, the node count and the node lines. */
  function ReadNodeSection(lines: seq<Line>): (r: Outcome<NodeSection>)
    ensures r.Done? ==> |r.value.vertices| == r.value.n && |r.value.slots| == 2 * r.value.n
  {
    match FindNodeKeyword(lines, 0)
    case Exit(e) => Exit(e)
    case Undefined(h) => Undefined(h)
    case Done((f, p1)) =>
      match NodeCount(lines, p1)
      case Exit(e) => Exit(e)
      case Undefined(h) => Undefined(h)
      case Done(n) =>
        match ReadNodes(lines, p1 + 1, n, 0, Unmapped(n), [])
        case Exit(e) => Exit(e)
        case Undefined(h) => Undefined(h)
        case Done((m0, vs0)) => Done(NodeSection(f, p1, n, m0, vs0))
  }

  /** The rest of the file: the section keywords, then the element lines, read
      against `GMSH2HR` after the merge. */
  function ReadElementSection(lines: seq<Line>, ns: NodeSection, merged: seq<int>): Outcome<(nat, Elements)> {
    match Headers(lines, ns.countLine + 1 + ns.n, ns.format)
    case Exit(e) => Exit(e)
    case Undefined(h) => Undefined(h)
    case Done((count, p2)) =>
      match ReadElements(ElementLines(lines, p2, ns.format, count), p2, merged, 0, NoElements)
      case Exit(e) => Exit(e)
      case Undefined(h) => Undefined(h)
      case Done(els) => Done((count, els))
  }

  /** `ReadGMSHFile`: the phases in order; the first failure ends the read.
      The normal check measures each panel against every reference point, so
      a reference point on an unnamed node is a read before the vertex array
      as soon as there is a panel. */
  function ReadMesh(lines: seq<Line>, gt: Option<Point -> Point>, near: (Point, Point) -> bool,
                    flips: (Panel, seq<int>) -> bool): Outcome<Mesh>
  {
    match ReadNodeSection(lines)
    case Exit(e) => Exit(e)
    case Undefined(h) => Undefined(h)
    case Done(ns) =>
      var vs := Transform(gt, ns.vertices);
      var merged := Merge(vs, near, 0, ns.slots, 0);
      match ReadElementSection(lines, ns, merged.0)
      case Exit(e) => Exit(e)
      case Undefined(h) => Undefined(h)
      case Done((count, els)) =>
        if |els.panels| > 0 && -1 in els.refs then Undefined(UnmappedRefPoint)
        else Done(Mesh(vs, merged.1, count, FlipAll(els.panels, els.refs, flips), els.refs))
  }

  lemma ElementSectionBookkeeping(lines: seq<Line>, ns: NodeSection, merged: seq<int>)
    ensures var r := ReadElementSection(lines, ns, merged);
            r.Done? ==> WellIndexed(r.value.1.panels) && |r.value.1.panels| <= r.value.0
                        && |r.value.1.refs| <= MaxRefPts
  {
    ElementSectionNeedsHeaders(lines, ns, merged);
    var h := Headers(lines, ns.countLine + 1 + ns.n, ns.format);
    if h.Done? {
      var (count, p2) := h.value;
      var lns := ElementLines(lines, p2, ns.format, count);
      ElementsBookkeeping(lns, p2, merged, 0, NoElements);
    }
  }

  /** The element section is only read once its keywords and count were,
      and then it holds what the element lines gave. */
  lemma ElementSectionNeedsHeaders(lines: seq<Line>, ns: NodeSection, merged: seq<int>)
    ensures var r := ReadElementSection(lines, ns, merged);
            var h := Headers(lines, ns.countLine + 1 + ns.n, ns.format);
            r.Done? ==> h.Done? && r.value.0 == h.value.0
                        && r.value.1 == ReadElements(ElementLines(lines, h.value.1, ns.format, h.value.0),
                                                     h.value.1, merged, 0, NoElements).value
  {
  }

  /** A mesh that was read: the panels are numbered by position, there are no
      more of them than element lines, and there are at most `MAXREFPTS`
      reference points. */
  lemma ReadMeshBookkeeping(lines: seq<Line>, gt: Option<Point -> Point>, near: (Point, Point) -> bool,
                            flips: (Panel, seq<int>) -> bool)
    ensures var r := ReadMesh(lines, gt, near, flips);
            r.Done? ==> WellIndexed(r.value.panels) && |r.value.panels| <= r.value.numElements
                        && |r.value.refs| <= MaxRefPts
  {
    var r := ReadMesh(lines, gt, near, flips);
    if r.Done? {
      var ns := ReadNodeSection(lines).value;
      var merged := Merge(Transform(gt, ns.vertices), near, 0, ns.slots, 0);
      ElementSectionBookkeeping(lines, ns, merged.0);
    }
  }

  /** Every panel is on three vertices among the first `n`. */
  predicate OnVertices(panels: seq<Panel>, n: nat) {
    forall np, k | 0 <= np < |panels| && 0 <= k < 3 :: 0 <= panels[np].vi[k] < n
  }

  /** A node section that was read holds, as vertex `k`, the point on the
      `k`-th line after the count line. */
  lemma NodeSectionVertices(lines: seq<Line>)
    ensures var r := ReadNodeSection(lines);
            r.Done? ==> r.value.countLine + 1 + r.value.n <= |lines|
                        && forall k | 0 <= k < r.value.n ::
                             Coords(lines[r.value.countLine + 1 + k]) == Some(r.value.vertices[k])
  {
    var k := FindNodeKeyword(lines, 0);
    if k.Done? {
      var (f, p1) := k.value;
      var c := NodeCount(lines, p1);
      if c.Done? && p1 + 1 <= |lines| {
        NodesMap(lines, p1 + 1, c.value, 0, Unmapped(c.value), []);
      }
    }
  }

  /** The node section leaves every entry of `GMSH2HR` a vertex or -1. */
  lemma NodeSectionInRange(lines: seq<Line>)
    ensures var r := ReadNodeSection(lines);
            r.Done? ==> InRange(r.value.slots, r.value.n)
  {
    var k := FindNodeKeyword(lines, 0);
    if k.Done? {
      var (f, p1) := k.value;
      var c := NodeCount(lines, p1);
      if c.Done? {
        NodesInRange(lines, p1 + 1, c.value, 0, Unmapped(c.value), []);
      }
    }
  }

  /** A triangle that passes the switch is on three vertices, and a point
      adds a vertex or -1. */
  lemma DispatchOnVertices(elType: int, vi: seq<Option<int>>, slots: seq<int>, panels: seq<Panel>, refs: seq<int>,
                           line: nat, n: nat)
    requires |vi| == 3 && InRange(slots, n) && OnVertices(panels, n) && InRange(refs, n)
    ensures var d := Dispatch(elType, vi, slots, panels, refs, line);
            d.Done? ==> OnVertices(d.value.0, n) && InRange(d.value.1, n)
  {
  }

  lemma {:induction false} ElementsOnVertices(els: seq<ElementLine>, pos: nat, slots: seq<int>, ne: nat, acc: Elements,
                                              n: nat)
    requires ne <= |els| && |acc.vi| == 3
    requires InRange(slots, n) && OnVertices(acc.panels, n) && InRange(acc.refs, n)
    ensures var r := ReadElements(els, pos, slots, ne, acc);
            r.Done? ==> OnVertices(r.value.panels, n) && InRange(r.value.refs, n)
    decreases |els| - ne
  {
    if ne < |els| && els[ne].Parsed? {
      var fields := els[ne].fields;
      var vi := UpdateVI(acc.vi, fields.vertices);
      var d := Dispatch(fields.elType, vi, slots, acc.panels, acc.refs, pos + ne + 1);
      if d.Done? {
        DispatchOnVertices(fields.elType, vi, slots, acc.panels, acc.refs, pos + ne + 1, n);
        ElementsOnVertices(els, pos, slots, ne + 1, Elements(d.value.0, d.value.1, vi), n);
      }
    }
  }

  lemma ElementSectionOnVertices(lines: seq<Line>, ns: NodeSection, merged: seq<int>, n: nat)
    requires InRange(merged, n)
    ensures var r := ReadElementSection(lines, ns, merged);
            r.Done? ==> OnVertices(r.value.1.panels, n) && InRange(r.value.1.refs, n)
  {
    ElementSectionNeedsHeaders(lines, ns, merged);
    var h := Headers(lines, ns.countLine + 1 + ns.n, ns.format);
    if h.Done? {
      var (count, p2) := h.value;
      var lns := ElementLines(lines, p2, ns.format, count);
      ElementsOnVertices(lns, p2, merged, 0, NoElements, n);
    }
  }

  /** Flipping exchanges vertices within a panel, so it keeps every panel on its vertices. */
  lemma FlipAllOnVertices(panels: seq<Panel>, refs: seq<int>, flips: (Panel, seq<int>) -> bool, n: nat)
    requires OnVertices(panels, n)
    ensures OnVertices(FlipAll(panels, refs, flips), n)
  {
    var r := FlipAll(panels, refs, flips);
    forall np, k | 0 <= np < |r| && 0 <= k < 3
      ensures 0 <= r[np].vi[k] < n
    {
      assert r[np] == panels[np] || r[np] == Swap02(panels[np]);
    }
  }

  /** Every panel of a mesh that was read is on three of its vertices, and
      every reference point is a vertex, or -1 only when there is no panel
      to orient. */
  /** Panels on vertices and reference points that are vertices or -1, with
      no -1 when there are panels, stay so through the normal pass. */
  lemma AssembledOnVertices(panels: seq<Panel>, refs: seq<int>, flips: (Panel, seq<int>) -> bool, n: nat)
    requires OnVertices(panels, n) && InRange(refs, n) && !(|panels| > 0 && -1 in refs)
    ensures OnVertices(FlipAll(panels, refs, flips), n)
    ensures |panels| > 0 ==> forall k | 0 <= k < |refs| :: refs[k] >= 0
  {
    FlipAllOnVertices(panels, refs, flips, n);
    if |panels| > 0 {
      forall k | 0 <= k < |refs|
        ensures refs[k] >= 0
      {
        assert refs[k] in refs;
      }
    }
  }

  /** A mesh that was read is built from the nodes section, the merge and
      the element section, none of which failed. */
  lemma ReadMeshDone(lines: seq<Line>, gt: Option<Point -> Point>, near: (Point, Point) -> bool,
                     flips: (Panel, seq<int>) -> bool)
    ensures var r := ReadMesh(lines, gt, near, flips);
            r.Done? ==> (ReadNodeSection(lines).Done? &&
                         var ns := ReadNodeSection(lines).value;
                         var vs := Transform(gt, ns.vertices);
                         var merged := Merge(vs, near, 0, ns.slots, 0);
                         var es := ReadElementSection(lines, ns, merged.0);
                         es.Done? && !(|es.value.1.panels| > 0 && -1 in es.value.1.refs)
                         && r.value == Mesh(vs, merged.1, es.value.0,
                                            FlipAll(es.value.1.panels, es.value.1.refs, flips), es.value.1.refs))
  {
  }

  lemma ReadMeshOnVertices(lines: seq<Line>, gt: Option<Point -> Point>, near: (Point, Point) -> bool,
                           flips: (Panel, seq<int>) -> bool)
    ensures var r := ReadMesh(lines, gt, near, flips);
            r.Done? ==> OnVertices(r.value.panels, |r.value.vertices|) && InRange(r.value.refs, |r.value.vertices|)
                        && (|r.value.panels| > 0 ==> forall k | 0 <= k < |r.value.refs| :: r.value.refs[k] >= 0)
  {
    var r := ReadMesh(lines, gt, near, flips);
    ReadMeshDone(lines, gt, near, flips);
    if r.Done? {
      var ns := ReadNodeSection(lines).value;
      var vs := Transform(gt, ns.vertices);
      NodeSectionInRange(lines);
      MergeLowers(vs, near, 0, ns.slots, 0);
      var merged := Merge(vs, near, 0, ns.slots, 0);
      ElementSectionOnVertices(lines, ns, merged.0, |vs|);
      var els := ReadElementSection(lines, ns, merged.0).value.1;
      AssembledOnVertices(els.panels, els.refs, flips, |vs|);
    }
  }

  /** The nodes section of `lines` opens at line `q` in format `f` and holds
      `n` node lines: no earlier line opens it, the count line says `n`, and
      the end-of-nodes and start-of-elements keywords of `f` follow. */
  predicate LaidOut(lines: seq<Line>, q: nat, f: Format, n: nat) {
    q + 3 + n < |lines|
    && NodeKeyword(lines[q]) == Some(f)
    && (forall q' | 0 <= q' < q :: NodeKeyword(lines[q']).None?)
    && Atoi(lines[q + 1].text) == n > 0
    && StartsWith(lines[q + 2 + n].text, NodeEndKeyword(f))
    && StartsWith(lines[q + 3 + n].text, ElmStartKeyword(f))
  }

  /** A node section that was read: the keyword line, then the count line. */
  lemma {:induction false} NodeSectionLayout(lines: seq<Line>)
    ensures var r := ReadNodeSection(lines);
            r.Done? ==> 0 < r.value.countLine < |lines|
                        && NodeKeyword(lines[r.value.countLine - 1]) == Some(r.value.format)
                        && (forall q | 0 <= q < r.value.countLine - 1 :: NodeKeyword(lines[q]).None?)
                        && Atoi(lines[r.value.countLine].text) == r.value.n > 0
  {
    FindNodeKeywordSpec(lines, 0);
  }

  /** A mesh that was read has one vertex per node line, as many as the count
      line announced, and its file is laid out as the format requires: the
      nodes keyword, the count, the node lines, the end-of-nodes and the
      start-of-elements keywords of the same format. */
  lemma ReadMeshLayout(lines: seq<Line>, gt: Option<Point -> Point>, near: (Point, Point) -> bool,
                       flips: (Panel, seq<int>) -> bool)
    ensures var r := ReadMesh(lines, gt, near, flips);
            r.Done? ==> exists q, f | 0 <= q :: LaidOut(lines, q, f, |r.value.vertices|)
  {
    var r := ReadMesh(lines, gt, near, flips);
    if r.Done? {
      var nsr := ReadNodeSection(lines);
      var ns := nsr.value;
      var merged := Merge(Transform(gt, ns.vertices), near, 0, ns.slots, 0);
      ElementSectionNeedsHeaders(lines, ns, merged.0);
      NodeSectionLayout(lines);
      assert LaidOut(lines, ns.countLine - 1, ns.format, ns.n);
    }
  }
}
