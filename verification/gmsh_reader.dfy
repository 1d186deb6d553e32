/**
  `RWGObject::ReadGMSHFile`: the reader itself, phase by phase, as the
  step-by-step code that fills `GMSH2HR`, the vertex list, the panel table and
  the reference points in place.  Each phase is proved to compute what the
  corresponding function of `GmshSpec` describes.
*/
module GmshReader {
  import opened Outcomes
  import opened GmshSyntax
  import opened GmshSpec

  /** Lines are read until one opens the nodes section. */
  method ScanNodeKeyword(lines: seq<Line>) returns (r: Outcome<(Format, nat)>)
    ensures r == FindNodeKeyword(lines, 0)
  {
    var lineNum := 0;
    var format: Option<Format> := None;
    while format.None?
      invariant lineNum <= |lines|
      invariant format.None? ==> FindNodeKeyword(lines, lineNum) == FindNodeKeyword(lines, 0)
      invariant format.Some? ==> FindNodeKeyword(lines, 0) == Done((format.value, lineNum))
      decreases |lines| - lineNum, format.None?
    {
      if lineNum == |lines| {
        return Exit(NoNodeKeyword);
      }
      format := NodeKeyword(lines[lineNum]);
      lineNum := lineNum + 1;
    }
    return Done((format.value, lineNum));
  }

  /** The `NumVertices` node lines from `pos` on: each vertex is appended and
      its node number's slot of `GMSH2HR` set to its position. */
  method ReadNodeLines(lines: seq<Line>, pos: nat, n: nat, gmsh2hr: array<int>) returns (r: Outcome<seq<Point>>)
    requires gmsh2hr.Length == 2 * n
    modifies gmsh2hr
    ensures var spec := ReadNodes(lines, pos, n, 0, old(gmsh2hr[..]), []);
            (spec.Exit? ==> r == Exit(spec.failure))
            && (spec.Undefined? ==> r == Undefined(spec.hazard))
            && (spec.Done? ==> r == Done(spec.value.1) && gmsh2hr[..] == spec.value.0)
  {
    var verts: seq<Point> := [];
    var nv := 0;
    while nv < n
      invariant nv <= n && |verts| == nv
      invariant ReadNodes(lines, pos, n, nv, gmsh2hr[..], verts) == ReadNodes(lines, pos, n, 0, old(gmsh2hr[..]), [])
    {
      var q := pos + nv;
      if q >= |lines| {
        return Exit(TooFewNodes);
      }
      var fields := NodeFields(lines[q].tokens);
      if fields.None? {
        return Exit(InvalidNode(q + 1));
      }
      var (index, p) := fields.value;
      if index > 2 * n {
        return Exit(NodeIndexTooLarge);
      }
      if index < 0 || index == 2 * n {
        return Undefined(NodeSlotOutOfRange(q + 1));
      }
      gmsh2hr[index] := nv;
      verts := verts + [p];
      nv := nv + 1;
    }
    return Done(verts);
  }

  /** The keyword scan, the node count, the allocation of `GMSH2HR` with every
      slot -1, and the node lines. */
  method LoadNodeSection(lines: seq<Line>) returns (r: Outcome<NodeSection>, gmsh2hr: array<int>)
    ensures fresh(gmsh2hr)
    ensures r == ReadNodeSection(lines)
    ensures r.Done? ==> gmsh2hr[..] == r.value.slots
  {
    gmsh2hr := new int[0];
    var found := ScanNodeKeyword(lines);
    if found.Exit? {
      return Exit(found.failure), gmsh2hr;
    }
    var (f, p1) := found.value;
    if p1 >= |lines| {
      return Exit(InvalidNodeCount), gmsh2hr;
    }
    var numVertices := Atoi(lines[p1].text);
    if numVertices == 0 {
      return Exit(InvalidNodeCount), gmsh2hr;
    }
    if numVertices < 0 {
      return Undefined(NegativeNodeCount), gmsh2hr;
    }
    gmsh2hr := new int[2 * numVertices];
    for i := 0 to 2 * numVertices
      invariant forall k | 0 <= k < i :: gmsh2hr[k] == -1
    {
      gmsh2hr[i] := -1;
    }
    assert gmsh2hr[..] == Unmapped(numVertices);
    var nodes := ReadNodeLines(lines, p1 + 1, numVertices, gmsh2hr);
    match nodes
    case Exit(e) => return Exit(e), gmsh2hr;
    case Undefined(h) => return Undefined(h), gmsh2hr;
    case Done(verts) => return Done(NodeSection(f, p1, numVertices, gmsh2hr[..], verts)), gmsh2hr;
  }

  /** Every entry of `GMSH2HR` equal to `j` is rewritten to `i`. */
  method RemapReferences(gmsh2hr: array<int>, j: int, i: int)
    modifies gmsh2hr
    ensures gmsh2hr[..] == Remap(old(gmsh2hr[..]), j, i)
  {
    for jGmsh := 0 to gmsh2hr.Length
      invariant forall k | 0 <= k < jGmsh :: gmsh2hr[k] == Remap(old(gmsh2hr[..]), j, i)[k]
      invariant forall k | jGmsh <= k < gmsh2hr.Length :: gmsh2hr[k] == old(gmsh2hr[k])
    {
      if gmsh2hr[jGmsh] == j {
        gmsh2hr[jGmsh] := i;
      }
    }
  }

  /** The redundant-vertex pass over all pairs `i < j`: `GMSH2HR` and the
      count become what `Merge` describes. */
  method MergeRedundant(verts: seq<Point>, near: (Point, Point) -> bool, gmsh2hr: array<int>) returns (count: nat)
    modifies gmsh2hr
    ensures (gmsh2hr[..], count) == Merge(verts, near, 0, old(gmsh2hr[..]), 0)
  {
    count := 0;
    var i := 0;
    while i < |verts|
      invariant i <= |verts|
      invariant Merge(verts, near, i, gmsh2hr[..], count) == Merge(verts, near, 0, old(gmsh2hr[..]), 0)
    {
      ghost var rowStart := (gmsh2hr[..], count);
      var j := i + 1;
      while j < |verts|
        invariant i + 1 <= j <= |verts|
        invariant MergeRow(verts, near, i, j, gmsh2hr[..], count) == MergeRow(verts, near, i, i + 1, rowStart.0, rowStart.1)
      {
        if near(verts[i], verts[j]) {
          RemapReferences(gmsh2hr, j, i);
          count := count + 1;
        }
        j := j + 1;
      }
      i := i + 1;
    }
  }

  /** The end-of-nodes keyword, the start-of-elements keyword and the element
      count, each on its own line. */
  method CheckHeaders(lines: seq<Line>, pos: nat, f: Format) returns (r: Outcome<(nat, nat)>)
    ensures r == Headers(lines, pos, f)
  {
    var lineNum := pos;
    if lineNum >= |lines| {
      return Exit(NodesNotTerminated);
    }
    lineNum := lineNum + 1;
    if !StartsWith(lines[lineNum - 1].text, NodeEndKeyword(f)) {
      return Exit(UnexpectedKeyword(lineNum));
    }
    if lineNum >= |lines| {
      return Exit(ElementsNotInitiated);
    }
    lineNum := lineNum + 1;
    if !StartsWith(lines[lineNum - 1].text, ElmStartKeyword(f)) {
      return Exit(UnexpectedKeyword(lineNum));
    }
    if lineNum >= |lines| {
      return Exit(NoElementCount);
    }
    lineNum := lineNum + 1;
    var toks := lines[lineNum - 1].tokens;
    var count := ScanInts(toks, 0, 1);
    if |count| != 1 || count[0] < 0 {
      return Exit(InvalidElementCount(lineNum));
    }
    return Done((count[0], lineNum));
  }

  /** The element switch, on the panel table and the reference-point slots:
      a point fills the next reference-point slot, a triangle the next panel
      slot; the numbers of slots in use afterwards. */
  method SwitchElement(elType: int, vi: seq<Option<int>>, gmsh2hr: array<int>, panels: array<Panel>, numPanels: nat,
                       refPts: array<int>, numRefPts: nat, line: nat)
    returns (r: Outcome<(nat, nat)>)
    requires |vi| == 3 && numPanels < panels.Length && numRefPts <= MaxRefPts == refPts.Length
    requires refPts != gmsh2hr
    modifies panels, refPts
    ensures var d := Dispatch(elType, vi, gmsh2hr[..], old(panels[..numPanels]), old(refPts[..numRefPts]), line);
            (d.Exit? ==> r == Exit(d.failure))
            && (d.Undefined? ==> r == Undefined(d.hazard))
            && (d.Done? ==> r.Done? && r.value.0 <= panels.Length && r.value.1 <= refPts.Length
                            && d.value == (panels[..r.value.0], refPts[..r.value.1]))
    ensures r.Done? ==> r.value.0 <= numPanels + 1 && r.value.1 <= MaxRefPts
  {
    if elType == TypePoint {
      if numRefPts == MaxRefPts {
        return Exit(TooManyRefPoints(line));
      }
      if !Resolves(gmsh2hr[..], vi[0]) {
        return Undefined(HazardOf(vi[0], line));
      }
      refPts[numRefPts] := gmsh2hr[vi[0].value];
      assert refPts[..numRefPts + 1] == old(refPts[..numRefPts]) + [gmsh2hr[vi[0].value]];
      return Done((numPanels, numRefPts + 1));
    } else if elType == TypeTriangle {
      if !Resolves(gmsh2hr[..], vi[0]) {
        return Undefined(HazardOf(vi[0], line));
      }
      if !Resolves(gmsh2hr[..], vi[1]) {
        return Undefined(HazardOf(vi[1], line));
      }
      if !Resolves(gmsh2hr[..], vi[2]) {
        return Undefined(HazardOf(vi[2], line));
      }
      if gmsh2hr[vi[0].value] == -1 || gmsh2hr[vi[1].value] == -1 || gmsh2hr[vi[2].value] == -1 {
        return Undefined(UnmappedVertex(line));
      }
      panels[numPanels] := Panel([gmsh2hr[vi[0].value], gmsh2hr[vi[1].value], gmsh2hr[vi[2].value]], numPanels);
      assert panels[..numPanels + 1] == old(panels[..numPanels]) + [panels[numPanels]];
      return Done((numPanels + 1, numRefPts));
    }
    return Done((numPanels, numRefPts));
  }

  /** Element line `ne`: read, parsed, then switched.  Done with the numbers
      of panel and reference-point slots in use when the read goes on. */
  method NextElement(lines: seq<Line>, pos: nat, f: Format, count: nat, ne: nat, gmsh2hr: array<int>,
                     panels: array<Panel>, numPanels: nat, refPts: array<int>, numRefPts: nat,
                     vi: seq<Option<int>>, ghost acc: Elements)
    returns (r: Outcome<(nat, nat)>, vi': seq<Option<int>>)
    requires ne < count && |vi| == 3 && numPanels < panels.Length && numRefPts <= MaxRefPts == refPts.Length
    requires refPts != gmsh2hr
    requires acc == Elements(panels[..numPanels], refPts[..numRefPts], vi)
    modifies panels, refPts
    ensures |vi'| == 3
    ensures r.Done? ==> r.value.0 <= numPanels + 1 && r.value.0 <= panels.Length && r.value.1 <= MaxRefPts
    ensures var goal := ReadElements(ElementLines(lines, pos, f, count), pos, gmsh2hr[..], ne, acc);
            match r
            case Exit(e) => goal == Exit(e)
            case Undefined(h) => goal == Undefined(h)
            case Done((np, nr)) =>
              goal == ReadElements(ElementLines(lines, pos, f, count), pos, gmsh2hr[..], ne + 1,
                                   Elements(panels[..np], refPts[..nr], vi'))
  {
    ghost var els := ElementLines(lines, pos, f, count);
    var q := pos + ne;
    ElementLinesAt(lines, pos, f, count, ne);
    if q >= |lines| {
      assert els[ne] == Missing;
      return Exit(TooFewElements), vi;
    }
    var fields := ParseElement(f, lines[q].tokens);
    if fields.None? {
      assert els[ne] == Invalid;
      return Exit(InvalidElement(q + 1)), vi;
    }
    assert els[ne] == Parsed(fields.value);
    vi' := UpdateVI(vi, fields.value.vertices);
    r := SwitchElement(fields.value.elType, vi', gmsh2hr, panels, numPanels, refPts, numRefPts, q + 1);
  }

  /** The `NumElements` element lines from `pos` on, filling a panel table of
      `NumElements` slots and the `MAXREFPTS` reference-point slots. */
  method ReadElementLines(lines: seq<Line>, pos: nat, f: Format, gmsh2hr: array<int>, count: nat)
    returns (r: Outcome<Elements>, panels: array<Panel>)
    ensures fresh(panels)
    ensures r == ReadElements(ElementLines(lines, pos, f, count), pos, gmsh2hr[..], 0, NoElements)
    ensures r.Done? ==> |r.value.panels| <= panels.Length && panels[..|r.value.panels|] == r.value.panels
  {
    panels := new Panel[count](_ => Panel([0, 0, 0], 0));
    var refPts := new int[MaxRefPts];
    var numPanels, numRefPts := 0, 0;
    var vi: seq<Option<int>> := [None, None, None];
    var ne := 0;
    ghost var slots := gmsh2hr[..];
    ghost var els := ElementLines(lines, pos, f, count);
    ghost var goal := ReadElements(els, pos, slots, 0, NoElements);
    ghost var acc := NoElements;
    assert acc.panels == panels[..numPanels] && acc.refs == refPts[..numRefPts];
    while ne < count
      invariant ne <= count && numPanels <= ne && numRefPts <= MaxRefPts
      invariant gmsh2hr[..] == slots
      invariant acc == Elements(panels[..numPanels], refPts[..numRefPts], vi) && |vi| == 3
      invariant ReadElements(els, pos, slots, ne, acc) == goal
    {
      var next;
      next, vi := NextElement(lines, pos, f, count, ne, gmsh2hr, panels, numPanels, refPts, numRefPts, vi, acc);
      match next
      case Exit(e) => return Exit(e), panels;
      case Undefined(h) => return Undefined(h), panels;
      case Done((np, nr)) =>
        numPanels, numRefPts := np, nr;
        acc := Elements(panels[..numPanels], refPts[..numRefPts], vi);
        ne := ne + 1;
    }
    return Done(Elements(panels[..numPanels], refPts[..numRefPts], vi)), panels;
  }

  /** The rest of the file, read against `GMSH2HR`: the section keywords and
      the element count, then the element lines into a fresh panel array. */
  method LoadElementSection(lines: seq<Line>, ns: NodeSection, gmsh2hr: array<int>)
    returns (r: Outcome<(nat, Elements)>, panels: array<Panel>)
    ensures fresh(panels)
    ensures r == ReadElementSection(lines, ns, gmsh2hr[..])
    ensures r.Done? ==> |r.value.1.panels| <= panels.Length && panels[..|r.value.1.panels|] == r.value.1.panels
  {
    var headers := CheckHeaders(lines, ns.countLine + 1 + ns.n, ns.format);
    if !headers.Done? {
      return Exit(headers.failure), new Panel[0];
    }
    var (numElements, p2) := headers.value;
    var els;
    els, panels := ReadElementLines(lines, p2, ns.format, gmsh2hr, numElements);
    match els
    case Exit(e) => r := Exit(e);
    case Undefined(h) => r := Undefined(h);
    case Done(e) => r := Done((numElements, e));
  }

  /** With reference points declared, every panel among the first `numPanels`
      that the given test says faces the wrong way has vertices 0 and 2
      exchanged in place. */
  method FlipNormals(panels: array<Panel>, numPanels: nat, refs: seq<int>, flips: (Panel, seq<int>) -> bool)
    requires numPanels <= panels.Length
    modifies panels
    ensures panels[..numPanels] == FlipAll(old(panels[..numPanels]), refs, flips)
    ensures panels[numPanels..] == old(panels[numPanels..])
  {
    if |refs| > 0 {
      ghost var target := FlipAll(panels[..numPanels], refs, flips);
      var np := 0;
      while np < numPanels
        invariant np <= numPanels
        invariant forall k | 0 <= k < np :: panels[k] == target[k]
        invariant forall k | np <= k < panels.Length :: panels[k] == old(panels[k])
      {
        var p := panels[np];
        if flips(p, refs) {
          var temp := p.vi[0];
          panels[np] := Panel(p.vi[0 := p.vi[2]][2 := temp], p.index);
          assert panels[np] == Swap02(p);
        }
        np := np + 1;
      }
    }
  }

  /** The phases of `ReadGMSHFile` in order, the panels built in a fresh
      array: the outcome is what `ReadMesh` describes. */
  method LoadMesh(lines: seq<Line>, gt: Option<Point -> Point>, near: (Point, Point) -> bool,
                  flips: (Panel, seq<int>) -> bool) returns (r: Outcome<Mesh>, panels: array<Panel>)
    ensures fresh(panels)
    ensures r == ReadMesh(lines, gt, near, flips)
    ensures r.Done? ==> |r.value.panels| <= panels.Length && panels[..|r.value.panels|] == r.value.panels
  {
    var nodes, gmsh2hr := LoadNodeSection(lines);
    if nodes.Exit? {
      return Exit(nodes.failure), new Panel[0];
    }
    if nodes.Undefined? {
      return Undefined(nodes.hazard), new Panel[0];
    }
    var ns := nodes.value;
    var vertices := Transform(gt, ns.vertices);
    var redundant := MergeRedundant(vertices, near, gmsh2hr);
    ghost var merged := Merge(vertices, near, 0, ns.slots, 0);
    assert gmsh2hr[..] == merged.0;

    var section;
    section, panels := LoadElementSection(lines, ns, gmsh2hr);
    if section.Exit? {
      return Exit(section.failure), panels;
    }
    if section.Undefined? {
      return Undefined(section.hazard), panels;
    }
    var (numElements, els) := section.value;
    if |els.panels| > 0 && -1 in els.refs {
      return Undefined(UnmappedRefPoint), panels;
    }
    FlipNormals(panels, |els.panels|, els.refs, flips);
    return Done(Mesh(vertices, redundant, numElements, panels[..|els.panels|], els.refs)), panels;
  }

  /** The mesh object the reader fills in. */
  class RWGObject {
    var numVertices: int
    var vertices: seq<Point>
    var numRedundantVertices: int
    /** `Panels`: a table with room for every element line; the first
        `NumPanels` entries are in use. */
    var panels: array<Panel>
    var numPanels: nat
    var numRefPts: nat

    /** An object with no mesh read into it yet. */
    constructor ()
      ensures numVertices == 0 && vertices == [] && numRedundantVertices == 0
      ensures panels.Length == 0 && numPanels == 0 && numRefPts == 0
    {
      numVertices := 0;
      vertices := [];
      numRedundantVertices := 0;
      panels := new Panel[0];
      numPanels := 0;
      numRefPts := 0;
    }

    /** `ReadGMSHFile`: the phases in order.  The outcome is what `ReadMesh`
        describes, and on success the object holds the mesh read. */
    method ReadGMSHFile(lines: seq<Line>, gt: Option<Point -> Point>, near: (Point, Point) -> bool,
                        flips: (Panel, seq<int>) -> bool) returns (r: Outcome<Mesh>)
      modifies this
      ensures r == ReadMesh(lines, gt, near, flips)
      ensures r.Done? ==> numVertices == |vertices| && vertices == r.value.vertices
                          && numRedundantVertices == r.value.redundant
                          && numPanels == |r.value.panels| <= panels.Length && panels[..numPanels] == r.value.panels
                          && numRefPts == |r.value.refs|
      ensures !r.Done? ==> unchanged(this)
    {
      var table;
      r, table := LoadMesh(lines, gt, near, flips);
      if r.Done? {
        numVertices := |r.value.vertices|;
        vertices := r.value.vertices;
        numRedundantVertices := r.value.redundant;
        panels := table;
        numPanels := |r.value.panels|;
        numRefPts := |r.value.refs|;
      }
    }
  }
}
