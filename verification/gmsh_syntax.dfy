/**
  The lexical side of the Gmsh mesh reader: input lines, the section
  keywords of both file formats, `atoi`, and what the reader's `sscanf`
  patterns extract from a line.

  A line is the text `fgets` returned, kept for the keyword tests and `atoi`,
  together with the whitespace-separated tokens `sscanf` sees in it: an
  integer, a floating-point number, or anything else.
*/
module GmshSyntax {
  import opened Outcomes

  datatype Token = Int(i: int) | Real(x: real) | Word(w: string)

  datatype Line = Line(text: string, tokens: seq<Token>)

  /** A vertex: three coordinates. */
  type Point = p: seq<real> | |p| == 3 witness [0.0, 0.0, 0.0]

  /** The legacy (`$NOD`/`$ELM`) and the current (`$Nodes`/`$Elements`) file formats. */
  datatype Format = Legacy | New

  const TypeTriangle: int := 2
  const TypePoint: int := 15
  /** `MAXREFPTS`: the most reference points a mesh may declare. */
  const MaxRefPts: nat := 100

  function NodeStartKeyword(f: Format): string {
    if f == Legacy then "$NOD" else "$Nodes"
  }

  function NodeEndKeyword(f: Format): string {
    if f == Legacy then "$ENDNOD" else "$EndNodes"
  }

  function ElmStartKeyword(f: Format): string {
    if f == Legacy then "$ELM" else "$Elements"
  }

  /** `strncmp(s, kw, strlen(kw)) == 0`: the line starts with the keyword. */
  predicate StartsWith(s: string, kw: string) {
    |kw| <= |s| && forall i | 0 <= i < |kw| :: s[i] == kw[i]
  }

  /** The characters `isspace` accepts. */
  predicate IsSpace(c: char) {
    c == ' ' || c == '\t' || c == '\n' || c == '\r' || c == 11 as char || c == 12 as char
  }

  predicate IsDigit(c: char) {
    '0' <= c <= '9'
  }

  /** The value of the run of decimal digits at the front of `s`, appended to `acc`. */
  function DigitRun(s: string, acc: nat): nat
    decreases |s|
  {
    if s == [] || !IsDigit(s[0]) then acc
    else DigitRun(s[1..], 10 * acc + (s[0] as int - '0' as int))
  }

  /** The white space `atoi` skips: what is dropped is all white space, and
      what is left does not start with any. */
  function SkipSpace(s: string): (t: string)
    ensures |t| <= |s| && t == s[|s| - |t|..]
    ensures forall i | 0 <= i < |s| - |t| :: IsSpace(s[i])
    ensures t != [] ==> !IsSpace(t[0])
    decreases |s|
  {
    if s != [] && IsSpace(s[0]) then SkipSpace(s[1..]) else s
  }

  /** `atoi`: leading white space, an optional sign, then decimal digits; 0 when
      there are none.  Integers are unbounded here. */
  function Atoi(s: string): int {
    var t := SkipSpace(s);
    if t != [] && t[0] == '-' then -(DigitRun(t[1..], 0) as int)
    else if t != [] && t[0] == '+' then DigitRun(t[1..], 0)
    else DigitRun(t, 0)
  }

  /** A digit run stops at the first non-digit: text that does not start with a
      digit contributes nothing. */
  lemma DigitRunStops(s: string, acc: nat)
    requires s == [] || !IsDigit(s[0])
    ensures DigitRun(s, acc) == acc
  {
  }

  /** A line starting with a keyword character such as `$` reads as the number 0. */
  lemma AtoiOfKeyword(s: string)
    requires s != [] && s[0] == '$'
    ensures Atoi(s) == 0
  {
    assert SkipSpace(s) == s;
  }

  /** What a run of `max` `%i` directives converts when it starts at token
      `from`: the integer tokens there, up to `max` of them, stopping at the
      first token that is not an integer. */
  function ScanInts(toks: seq<Token>, from: nat, max: nat): (vs: seq<int>)
    requires from <= |toks|
    ensures |vs| <= max && from + |vs| <= |toks|
    decreases |toks| - from
  {
    if max == 0 || from == |toks| || !toks[from].Int? then [] else [toks[from].i] + ScanInts(toks, from + 1, max - 1)
  }

  /** The conversions are the leading integer tokens, and they stop only at the
      directive limit, the end of the line, or a token that is not an integer. */
  lemma {:induction false} ScanIntsSpec(toks: seq<Token>, from: nat, max: nat)
    requires from <= |toks|
    ensures var vs := ScanInts(toks, from, max);
            forall k | 0 <= k < |vs| :: toks[from + k] == Int(vs[k])
    ensures var vs := ScanInts(toks, from, max);
            |vs| < max && from + |vs| < |toks| ==> !toks[from + |vs|].Int?
    decreases |toks| - from
  {
    if max > 0 && from < |toks| && toks[from].Int? {
      ScanIntsSpec(toks, from + 1, max - 1);
      var rest := ScanInts(toks, from + 1, max - 1);
      assert ScanInts(toks, from, max) == [toks[from].i] + rest;
    }
  }

  /** `n` integer tokens in a row are converted by `n` directives. */
  lemma {:induction false} ScanIntsOfInts(toks: seq<Token>, from: nat, vs: seq<int>)
    requires from + |vs| <= |toks|
    requires forall k | 0 <= k < |vs| :: toks[from + k] == Int(vs[k])
    ensures ScanInts(toks, from, |vs|) == vs
    decreases |vs|
  {
    if vs != [] {
      assert toks[from] == Int(vs[0]);
      assert forall k | 0 <= k < |vs| - 1 :: toks[from + 1 + k] == Int(vs[1..][k]) by {
        forall k | 0 <= k < |vs| - 1 ensures toks[from + 1 + k] == Int(vs[1..][k]) {
          assert toks[from + (k + 1)] == Int(vs[k + 1]);
        }
      }
      ScanIntsOfInts(toks, from + 1, vs[1..]);
      assert vs == [vs[0]] + vs[1..];
    }
  }

  /** What `%le` reads from a token, if it reads anything. */
  function Number(t: Token): Option<real> {
    match t
    case Int(i) => Some(i as real)
    case Real(x) => Some(x)
    case Word(_) => None
  }

  /** `sscanf(line, "%i %le %le %le", ...) == 4`: the node number and the vertex. */
  function NodeFields(toks: seq<Token>): (r: Option<(int, Point)>)
    ensures r.Some? <==> |toks| >= 4 && toks[0].Int? && Number(toks[1]).Some? && Number(toks[2]).Some?
                         && Number(toks[3]).Some?
    ensures r.Some? ==> r.value.0 == toks[0].i
  {
    if |toks| < 4 || !toks[0].Int? then None
    else match (Number(toks[1]), Number(toks[2]), Number(toks[3]))
      case (Some(x), Some(y), Some(z)) => Some((toks[0].i, [x, y, z]))
      case _ => None
  }

  /** What an element line contributes: its type and the vertex numbers it
      converted (which overwrite the first entries of `VI`). */
  datatype ElementFields = ElementFields(elType: int, vertices: seq<int>)

  /** An element line of the legacy format:
      `sscanf(line, "%i %i %i %i %i %i %i %i", ...)` must convert at least five
      integers (number, type, two regions, node count); up to three more are
      vertex numbers. */
  function LegacyElement(toks: seq<Token>): (r: Option<ElementFields>)
    ensures r.Some? <==> |ScanInts(toks, 0, 8)| >= 5
    ensures r.Some? ==> |r.value.vertices| <= 3
  {
    var vs := ScanInts(toks, 0, 8);
    if |vs| < 5 then None else Some(ElementFields(vs[1], vs[5..]))
  }

  /** Where the vertex numbers of a current-format element line start: after
      the three header integers, `nTags` tokens are skipped (none when `nTags`
      is not positive, all when the line has fewer). */
  function AfterTags(toks: seq<Token>, nTags: int): (start: nat)
    requires 3 <= |toks|
    ensures 3 <= start <= |toks|
  {
    3 + if nTags <= 0 then 0 else Min(nTags, |toks| - 3)
  }

  /** An element line of the current format: `"%i %i %i"` must convert number,
      type and tag count; after the tags, `"%i %i %i"` reads the vertex numbers,
      of which a triangle must supply exactly 3 and a point exactly 1. */
  function NewElement(toks: seq<Token>): (r: Option<ElementFields>)
    ensures r.Some? ==> |r.value.vertices| <= 3
  {
    var header := ScanInts(toks, 0, 3);
    if |header| < 3 then None
    else
      var vs := ScanInts(toks, AfterTags(toks, header[2]), 3);
      if header[1] == TypeTriangle && |vs| != 3 then None
      else if header[1] == TypePoint && |vs| != 1 then None
      else Some(ElementFields(header[1], vs))
  }

  /** A current-format line is accepted exactly when its three header integers
      convert and, for a triangle or a point, the right number of vertex
      numbers follows the tags; the element type is the second header integer. */
  lemma NewElementShape(toks: seq<Token>)
    ensures var r := NewElement(toks);
            (r.Some? ==> |ScanInts(toks, 0, 3)| == 3 && toks[1] == Int(r.value.elType))
            && (r.Some? && r.value.elType == TypeTriangle ==> |r.value.vertices| == 3)
            && (r.Some? && r.value.elType == TypePoint ==> |r.value.vertices| == 1)
            && (|ScanInts(toks, 0, 3)| == 3 && toks[1] != Int(TypeTriangle) && toks[1] != Int(TypePoint)
                ==> r.Some?)
  {
    ScanIntsSpec(toks, 0, 3);
  }

  function ParseElement(f: Format, toks: seq<Token>): Option<ElementFields> {
    if f == Legacy then LegacyElement(toks) else NewElement(toks)
  }

  /** A legacy triangle line: its vertex numbers follow the five header
      integers, and anything after them is ignored. */
  lemma LegacyTriangleLine(num: int, phys: int, elem: int, v0: int, v1: int, v2: int, rest: seq<Token>)
    ensures LegacyElement([Int(num), Int(TypeTriangle), Int(phys), Int(elem), Int(3), Int(v0), Int(v1), Int(v2)] + rest)
            == Some(ElementFields(TypeTriangle, [v0, v1, v2]))
  {
    var toks := [Int(num), Int(TypeTriangle), Int(phys), Int(elem), Int(3), Int(v0), Int(v1), Int(v2)] + rest;
    var vs := [num, TypeTriangle, phys, elem, 3, v0, v1, v2];
    ScanIntsOfInts(toks, 0, vs);
    assert vs[5..] == [v0, v1, v2];
  }

  /** A tag list, however long, is skipped: the vertex numbers of a
      current-format triangle are the three integers after its tags. */
  lemma NewTriangleSkipsTags(num: int, tags: seq<int>, v0: int, v1: int, v2: int)
    ensures var toks := [Int(num), Int(TypeTriangle), Int(|tags|)] + seq(|tags|, k requires 0 <= k < |tags| => Int(tags[k]))
                        + [Int(v0), Int(v1), Int(v2)];
            NewElement(toks) == Some(ElementFields(TypeTriangle, [v0, v1, v2]))
  {
    var tagToks := seq(|tags|, k requires 0 <= k < |tags| => Int(tags[k]));
    var toks := [Int(num), Int(TypeTriangle), Int(|tags|)] + tagToks + [Int(v0), Int(v1), Int(v2)];
    ScanIntsOfInts(toks, 0, [num, TypeTriangle, |tags|]);
    var start := 3 + |tags|;
    assert AfterTags(toks, |tags|) == start;
    ScanIntsOfInts(toks, start, [v0, v1, v2]);
  }

  /** `VI` after an element line: the converted vertex numbers replace its
      first entries, the others keep whatever an earlier line left there
      (None: never set). */
  function UpdateVI(vi: seq<Option<int>>, vs: seq<int>): (r: seq<Option<int>>)
    requires |vi| == 3
    ensures |r| == 3
  {
    [if 0 < |vs| then Some(vs[0]) else vi[0],
     if 1 < |vs| then Some(vs[1]) else vi[1],
     if 2 < |vs| then Some(vs[2]) else vi[2]]
  }
}
