/** The tokenizer: cutting one fragment at a time off the head of a pattern
    fragment, reading the quantifier and modifiers that follow it, and
    cutting set members. The source passes fragments through pointers and
    overwrites them; here each step takes the fragment by value and returns
    the shortened remainder and the cut fragment. */
module Tokenizer {
  import opened CharUtils
  import opened Asm

  /** Outcome of one cut. `Malformed` stands for a pattern on which the
      source slices or indexes out of range (a run-time panic) or, for an
      unclosed group or hook, recurses forever. */
  datatype Cut = NoMore | Next(rest: ReStruct, track: ReStruct) | Malformed

  /** Cuts the first n bytes off rexp as a fragment of the given kind; the
      fragment keeps every other field of rexp. */
  function CutByLen(rexp: ReStruct, n: int, kind: Inst): (c: Cut)
    ensures c.Next? <==> 0 <= n <= |rexp.str|
    ensures c.Next? ==>
      |c.track.str| == n && |c.rest.str| == |rexp.str| - n &&
      c.track == rexp.(str := c.track.str, reType := kind) &&
      c.rest == rexp.(str := c.rest.str)
    ensures !c.NoMore?
  {
    if 0 <= n <= |rexp.str| then
      Next(rexp.(str := rexp.str[n..]), rexp.(str := rexp.str[..n], reType := kind))
    else Malformed
  }

  /** The cut fragment and the remainder put back together give the text. */
  lemma CutByLenParts(rexp: ReStruct, n: int, kind: Inst)
    requires 0 <= n <= |rexp.str|
    ensures CutByLen(rexp, n, kind).track.str + CutByLen(rexp, n, kind).rest.str == rexp.str
  {
    assert rexp.str[..n] + rexp.str[n..] == rexp.str;
  }

  /** r is what is left of s after dropping a prefix. */
  predicate SuffixOf(r: Bytes, s: Bytes) {
    |r| <= |s| && r == s[|s| - |r|..]
  }

  lemma SuffixTrans(a: Bytes, b: Bytes, c: Bytes)
    requires SuffixOf(a, b) && SuffixOf(b, c)
    ensures SuffixOf(a, c)
  {
    assert c[|c| - |b|..][|b| - |a|..] == c[|c| - |a|..];
  }

  // ---------------------------------------------------------------------
  // Escapes and sets.

  /** The first offset at or after i that does not open a `:x` escape pair;
      a `:` in the last byte runs to the end. Offsets are absolute: the
      source scans a suffix and adds the run length to the caller's index. */
  function NextPos(s: Bytes, i: nat): (j: nat)
    requires i <= |s|
    ensures i <= j <= |s|
    ensures j < |s| ==> s[j] != Colon && (j - i) % 2 == 0
    decreases |s| - i
  {
    if i == |s| || s[i] != Colon then i
    else if i + 1 == |s| then |s|
    else NextPos(s, i + 2)
  }

  /** Every even offset of the run holds ':'. */
  lemma {:induction false} NextPosRun(s: Bytes, i: nat)
    requires i <= |s|
    ensures forall k :: i <= k < NextPos(s, i) && (k - i) % 2 == 0 ==> s[k] == Colon
    decreases |s| - i
  {
    if i + 1 < |s| && s[i] == Colon {
      NextPosRun(s, i + 2);
    }
  }

  method WalkMeta(s: Bytes, n: nat) returns (j: nat)
    requires n <= |s|
    ensures j == NextPos(s, n)
  {
    var i := n;
    while i < |s| && s[i] == Colon
      invariant n <= i && (i - n) % 2 == 0
      invariant i <= |s| ==> NextPos(s, n) == NextPos(s, i)
      invariant i > |s| ==> NextPos(s, n) == |s|
      decreases |s| - i
    {
      i := i + 2;
    }
    j := if i < |s| then i else |s|;
  }

  /** The first `]` at or after j that is not part of an escape, or |s|
      when there is none. */
  function SetEndAt(s: Bytes, j: nat): (r: nat)
    requires j <= |s|
    ensures j <= r <= |s|
    ensures r < |s| ==> s[r] == RBracket
    decreases |s| - j
  {
    var k := NextPos(s, j);
    if k >= |s| then |s|
    else if s[k] == RBracket then k
    else SetEndAt(s, k + 1)
  }

  /** The source's set walker, started at offset n. */
  method WalkSet(s: Bytes, n: nat) returns (r: nat)
    requires n <= |s|
    ensures r == SetEndAt(s, n)
  {
    var i := n;
    while true
      invariant n <= i <= |s|
      invariant SetEndAt(s, i) == SetEndAt(s, n)
      decreases |s| - i
    {
      i := WalkMeta(s, i);
      if i >= |s| {
        return |s|;
      }
      if s[i] == RBracket {
        return i;
      }
      i := i + 1;
    }
  }

  // ---------------------------------------------------------------------
  // Balanced cuts: an alternative, a group, a hook or a set.

  predicate IsCutKind(kind: Inst) { kind == Path || kind == Group || kind == Hook || kind == Set }

  predicate IsCloser(b: bv8) { b == RParen || b == RAngle }

  function Depth(b: bv8, deep: int): int {
    if b == LParen || b == LAngle then deep + 1
    else if IsCloser(b) then deep - 1
    else deep
  }

  /** Whether the scan for the given kind stops at byte b at nesting depth deep. */
  predicate CutHere(kind: Inst, b: bv8, deep: int) {
    if kind == Set then b == RBracket
    else if kind == Path then b == Bar && deep == 0
    else (kind == Group || kind == Hook) && deep == 0
  }

  /** Result of the balanced scan: the offset of the delimiter, no delimiter
      before the end, or an out-of-range access (an unterminated set). */
  datatype Scan = Found(at: nat) | NotFound | Panic

  /** Where the scan resumes after the byte at j: past a set when j opens
      one, otherwise at j itself. */
  function Hop(s: Bytes, j: nat): (e: nat)
    requires j < |s|
    ensures j <= e <= |s|
    ensures s[j] != LBracket ==> e == j
    ensures s[j] == LBracket && e < |s| ==> s[e] == RBracket
  {
    if s[j] == LBracket then SetEndAt(s, j) else j
  }

  /** The scan loop from offset i at depth deep: skip escapes, track the
      depth over `(<` and `)>`, jump over sets, stop where the kind cuts. */
  function CutScan(s: Bytes, i: nat, deep: int, kind: Inst): (r: Scan)
    requires i <= |s|
    ensures r.Found? ==> i <= r.at < |s|
    ensures r.Found? && kind == Set ==> s[r.at] == RBracket
    ensures r.Found? && kind == Path ==> s[r.at] == Bar
    decreases |s| - i
  {
    var j := NextPos(s, i);
    if j >= |s| then NotFound
    else
      var d := Depth(s[j], deep);
      var e := Hop(s, j);
      if e >= |s| then Panic
      else if CutHere(kind, s[e], d) then Found(e)
      else CutScan(s, e + 1, d, kind)
  }

  /** One step of the scan, for callers that walk it a step at a time. */
  lemma CutScanStep(s: Bytes, i: nat, deep: int, kind: Inst, j: nat, e: nat)
    requires i <= |s| && j == NextPos(s, i) && j < |s| && e == Hop(s, j)
    ensures e >= |s| ==> CutScan(s, i, deep, kind) == Panic
    ensures e < |s| && CutHere(kind, s[e], Depth(s[j], deep)) ==> CutScan(s, i, deep, kind) == Found(e)
    ensures e < |s| && !CutHere(kind, s[e], Depth(s[j], deep)) ==>
      CutScan(s, i, deep, kind) == CutScan(s, e + 1, Depth(s[j], deep), kind)
  {
  }

  lemma CutScanEnd(s: Bytes, i: nat, deep: int, kind: Inst)
    requires i <= |s| && NextPos(s, i) >= |s|
    ensures CutScan(s, i, deep, kind) == NotFound
  {
  }

  /** Inside a group or hook (depth at least 1) the scan stops only on a
      closing bracket. */
  lemma {:induction false} GroupScanStopsOnCloser(s: Bytes, i: nat, deep: int, kind: Inst)
    requires i <= |s| && deep >= 1 && (kind == Group || kind == Hook)
    ensures CutScan(s, i, deep, kind).Found? ==> IsCloser(s[CutScan(s, i, deep, kind).at])
    decreases |s| - i
  {
    var j := NextPos(s, i);
    if j < |s| {
      var d := Depth(s[j], deep);
      var e := Hop(s, j);
      if e < |s| && !CutHere(kind, s[e], d) {
        GroupScanStopsOnCloser(s, e + 1, d, kind);
      }
    }
  }

  function OpenerOf(kind: Inst): bv8 {
    if kind == Group then LParen else if kind == Hook then LAngle else LBracket
  }

  predicate CutRequest(s: Bytes, kind: Inst) {
    IsCutKind(kind) && (kind != Path ==> |s| > 0 && s[0] == OpenerOf(kind))
  }

  /** The scan never stops on the opening bracket itself, and inside a group
      or hook it stops on a closer. */
  lemma OpenedScan(s: Bytes, kind: Inst)
    requires CutRequest(s, kind)
    ensures kind != Path && CutScan(s, 0, 0, kind).Found? ==> CutScan(s, 0, 0, kind).at >= 1
    ensures kind != Path && kind != Set && CutScan(s, 0, 0, kind).Found? ==> IsCloser(s[CutScan(s, 0, 0, kind).at])
    ensures kind == Set ==> !CutScan(s, 0, 0, kind).NotFound?
  {
    if kind == Set {
      assert NextPos(s, 0) == 0;
      assert SetEndAt(s, 0) == SetEndAt(s, 1);
    } else if kind != Path {
      assert NextPos(s, 0) == 0;
      GroupScanStopsOnCloser(s, 1, 1, kind);
    }
  }

  datatype TypeCut =
    | NoInput
    | Closed(rest: ReStruct, track: ReStruct)
    | Unclosed(rest: ReStruct, track: ReStruct)
    | Unterminated

  /** The balanced cut: up to the first top-level `|` for an alternative, to
      the matching closer for a group or hook, to the first `]` for a set.
      The cut fragment loses its delimiters, the remainder starts after the
      closing delimiter; with no delimiter the whole text is the fragment. */
  function CutByTypeSpec(rexp: ReStruct, kind: Inst): (c: TypeCut)
    requires CutRequest(rexp.str, kind)
    ensures c.NoInput? <==> |rexp.str| == 0
    ensures c.Unclosed? ==> c.track == rexp.(reType := kind) && c.rest == rexp.(str := [])
    ensures c.Closed? ==> c.track == rexp.(str := c.track.str, reType := kind) && c.rest == rexp.(str := c.rest.str)
  {
    var s := rexp.str;
    if |s| == 0 then NoInput
    else
      match CutScan(s, 0, 0, kind)
      case Found(at) =>
        OpenedScan(s, kind);
        Closed(rexp.(str := s[at + 1..]), rexp.(str := if kind == Path then s[..at] else s[1..at], reType := kind))
      case NotFound => Unclosed(rexp.(str := []), rexp.(reType := kind))
      case Panic => Unterminated
  }

  /** How a closed alternative reassembles: the fragment, the `|`, the rest. */
  lemma CutPathParts(rexp: ReStruct)
    requires CutByTypeSpec(rexp, Path).Closed?
    ensures var c := CutByTypeSpec(rexp, Path);
      rexp.str == c.track.str + [Bar] + c.rest.str
  {
    var s := rexp.str;
    var at := CutScan(s, 0, 0, Path).at;
    assert s == s[..at] + [s[at]] + s[at + 1..];
  }

  /** Both parts of a closed alternative are shorter than the pattern. */
  lemma PathCutShrinks(rexp: ReStruct)
    requires CutByTypeSpec(rexp, Path).Closed?
    ensures var c := CutByTypeSpec(rexp, Path);
      |c.track.str| < |rexp.str| && |c.rest.str| < |rexp.str|
  {
    CutPathParts(rexp);
  }

  /** How a closed set reassembles: `[`, the members, `]`, the rest. */
  lemma CutSetParts(rexp: ReStruct)
    requires CutRequest(rexp.str, Set) && CutByTypeSpec(rexp, Set).Closed?
    ensures var c := CutByTypeSpec(rexp, Set);
      rexp.str == [LBracket] + c.track.str + [RBracket] + c.rest.str
  {
    var s := rexp.str;
    OpenedScan(s, Set);
    var at := CutScan(s, 0, 0, Set).at;
    assert s == [s[0]] + s[1..at] + [s[at]] + s[at + 1..];
  }

  /** How a closed group or hook reassembles: the opener, the body, a closer,
      the rest. */
  lemma CutGroupParts(rexp: ReStruct, kind: Inst)
    requires (kind == Group || kind == Hook) && CutRequest(rexp.str, kind)
    requires CutByTypeSpec(rexp, kind).Closed?
    ensures var c := CutByTypeSpec(rexp, kind);
      |rexp.str| == |c.track.str| + 2 + |c.rest.str| && IsCloser(rexp.str[|c.track.str| + 1]) &&
      rexp.str == [OpenerOf(kind)] + c.track.str + [rexp.str[|c.track.str| + 1]] + c.rest.str
  {
    var s := rexp.str;
    OpenedScan(s, kind);
    var at := CutScan(s, 0, 0, kind).at;
    assert s == [s[0]] + s[1..at] + [s[at]] + s[at + 1..];
  }

  /** Without a delimiter the cut is the whole text: only an alternative, a
      group or a hook can be unclosed, since a set without `]` runs off the
      end. */
  lemma CutByTypeUnclosed(rexp: ReStruct, kind: Inst)
    requires CutRequest(rexp.str, kind)
    ensures CutByTypeSpec(rexp, kind).Unclosed? ==> kind == Path || kind == Group || kind == Hook
  {
    OpenedScan(rexp.str, kind);
  }

  /** The cut in terms of the scan's outcome. */
  lemma CutByTypeByScan(rexp: ReStruct, kind: Inst, r: Scan)
    requires CutRequest(rexp.str, kind) && |rexp.str| > 0 && r == CutScan(rexp.str, 0, 0, kind)
    ensures var s := rexp.str;
      (r.Found? ==> (kind != Path ==> r.at >= 1)) &&
      (r.Found? ==>
        CutByTypeSpec(rexp, kind) == Closed(rexp.(str := s[r.at + 1..]), rexp.(str := if kind == Path then s[..r.at] else s[1..r.at], reType := kind))) &&
      (r.NotFound? ==> CutByTypeSpec(rexp, kind) == Unclosed(rexp.(str := []), rexp.(reType := kind))) &&
      (r.Panic? ==> CutByTypeSpec(rexp, kind) == Unterminated)
  {
    OpenedScan(rexp.str, kind);
  }

  /** The source's cut: the scanning loop, then the pieces it names. */
  method CutByType(rexp: ReStruct, kind: Inst) returns (c: TypeCut)
    requires CutRequest(rexp.str, kind)
    ensures c == CutByTypeSpec(rexp, kind)
  {
    var s := rexp.str;
    if |s| == 0 {
      return NoInput;
    }
    var r := ScanCut(s, kind);
    CutByTypeByScan(rexp, kind, r);
    if r.Panic? {
      return Unterminated;
    }
    if r.Found? {
      // Every kind but an alternative drops its opening bracket.
      var t := if kind == Path then s[..r.at] else s[1..r.at];
      return Closed(rexp.(str := s[r.at + 1..]), rexp.(str := t, reType := kind));
    }
    return Unclosed(rexp.(str := []), rexp.(reType := kind));
  }

  /** The scanning loop of the cut: escapes are stepped over, sets are
      skipped whole, and the depth follows the brackets. */
  method ScanCut(s: Bytes, kind: Inst) returns (r: Scan)
    ensures r == CutScan(s, 0, 0, kind)
  {
    var i, deep := 0, 0;
    ghost var target := CutScan(s, 0, 0, kind);
    while true
      invariant i <= |s|
      invariant CutScan(s, i, deep, kind) == target
      decreases |s| - i
    {
      ghost var i0, deep0 := i, deep;
      i := WalkMeta(s, i);
      if i >= |s| {
        CutScanEnd(s, i0, deep0, kind);
        break;
      }
      ghost var j := i;
      deep := Depth(s[i], deep);
      if s[i] == LBracket {
        i := WalkSet(s, i);
      }
      CutScanStep(s, i0, deep0, kind, j, i);
      // Past the end the source indexes the text (alternative, set) or
      // slices it past its length (group, hook): a panic either way.
      if i >= |s| {
        return Panic;
      }
      if CutHere(kind, s[i], deep) {
        return Found(i);
      }
      i := i + 1;
    }
    return NotFound;
  }

  // ---------------------------------------------------------------------
  // Literal runs.

  /** Bytes that end a literal run before them. */
  predicate StopsSimple(b: bv8) {
    b > 127 || b == LParen || b == LAngle || b == LBracket ||
    b == At || b == Colon || b == Dot
  }

  /** Bytes that end a literal run and leave its last byte to the quantifier
      or modifier that follows. */
  predicate IsQuant(b: bv8) {
    b == Question || b == Plus || b == Star || b == LBrace || b == Hash
  }

  /** Length of the literal at the head of s, scanning from offset i; -1 when
      a quantifier opens the text (the source then slices with -1). */
  function SimpleLenFrom(s: Bytes, i: nat): (n: int)
    requires i <= |s|
    ensures -1 <= n <= |s|
    ensures i >= 1 ==> n >= 1
    decreases |s| - i
  {
    if i == |s| then |s|
    else if StopsSimple(s[i]) then i
    else if IsQuant(s[i]) then (if i == 1 then 1 else i - 1)
    else SimpleLenFrom(s, i + 1)
  }

  method CutSimple(rexp: ReStruct) returns (c: Cut)
    ensures c == CutByLen(rexp, SimpleLenFrom(rexp.str, 0), Simple)
  {
    var s := rexp.str;
    var i := 0;
    while i < |s|
      invariant i <= |s|
      invariant SimpleLenFrom(s, i) == SimpleLenFrom(s, 0)
    {
      if s[i] > 127 || StopsSimple(s[i]) {
        return CutByLen(rexp, i, Simple);
      } else if IsQuant(s[i]) {
        if i == 1 {
          return CutByLen(rexp, 1, Simple);
        }
        return CutByLen(rexp, i - 1, Simple);
      }
      i := i + 1;
    }
    return CutByLen(rexp, |s|, Simple);
  }

  // ---------------------------------------------------------------------
  // Quantifiers.

  /** Reads the quantifier at the head of rexp into track's bounds and drops
      it from rexp: none gives {1,1}, `?` {0,1}, `+` {1,Inf}, `*` {0,Inf},
      `{m}`, `{m,}`, `{m,n}` as written. */
  function GetLoops(rexp: ReStruct, track: ReStruct): (c: Cut)
    ensures !c.NoMore?
    ensures c.Malformed? ==> |rexp.str| > 0 && rexp.str[0] == LBrace
    ensures c.Next? ==> c.rest == rexp.(str := c.rest.str) && c.track == track.(loopsMin := c.track.loopsMin, loopsMax := c.track.loopsMax)
    ensures c.Next? ==> |c.rest.str| <= |rexp.str|
  {
    var s := rexp.str;
    var t := track.(loopsMin := 1, loopsMax := 1);
    if |s| == 0 then Next(rexp, t)
    else if s[0] == Question then Next(rexp.(str := s[1..]), t.(loopsMin := 0, loopsMax := 1))
    else if s[0] == Plus then Next(rexp.(str := s[1..]), t.(loopsMin := 1, loopsMax := Inf))
    else if s[0] == Star then Next(rexp.(str := s[1..]), t.(loopsMin := 0, loopsMax := Inf))
    else if s[0] == LBrace then BraceLoops(rexp, t)
    else Next(rexp, t)
  }

  /** The `{` case: a minimum, then `}`, `,}` or `,` and a maximum; with
      none of those only the minimum is set and the maximum stays 1. */
  function BraceLoops(rexp: ReStruct, t: ReStruct): (c: Cut)
    requires |rexp.str| > 0
    ensures !c.NoMore?
    ensures c.Next? ==> c.rest == rexp.(str := c.rest.str) && c.track == t.(loopsMin := c.track.loopsMin, loopsMax := c.track.loopsMax)
    ensures c.Next? ==> |c.rest.str| <= |rexp.str|
  {
    var s := rexp.str;
    var m := AToI(s[1..]);
    var p := 1 + CountCharDigits(s[1..]);
    if p >= |s| then Malformed
    else if s[p] == RBrace then Next(rexp.(str := s[p + 1..]), t.(loopsMin := m, loopsMax := m))
    else if p + 2 > |s| then Malformed
    else if s[p] == Comma && s[p + 1] == RBrace then Next(rexp.(str := s[p + 2..]), t.(loopsMin := m, loopsMax := Inf))
    else if s[p] == Comma then
      var mx := AToI(s[p + 1..]);
      var q := p + 1 + CountCharDigits(s[p + 1..]) + 1;
      if q > |s| then Malformed
      else Next(rexp.(str := s[q..]), t.(loopsMin := m, loopsMax := mx))
    else Next(rexp.(str := s[p..]), t.(loopsMin := m))
  }

  predicate AllDigits(ds: Bytes) { forall i :: 0 <= i < |ds| ==> IsDigit(ds[i]) }

  /** Shorthand for a fragment whose only text is str. */
  function WithText(r: ReStruct, str: Bytes): ReStruct { r.(str := str) }

  /** No quantifier: bounds {1,1} and nothing consumed. */
  lemma LoopsNone(rexp: ReStruct, track: ReStruct)
    requires |rexp.str| == 0 || rexp.str[0] !in {Question, Plus, Star, LBrace}
    ensures GetLoops(rexp, track) == Next(rexp, track.(loopsMin := 1, loopsMax := 1))
  {
  }

  /** A one-byte quantifier: `?` gives {0,1}, `+` gives {1,Inf}, `*` gives
      {0,Inf}, and only that byte is consumed. */
  lemma LoopsSingle(rexp: ReStruct, track: ReStruct)
    requires |rexp.str| > 0
    ensures rexp.str[0] == Question ==>
      GetLoops(rexp, track) == Next(WithText(rexp, rexp.str[1..]), track.(loopsMin := 0, loopsMax := 1))
    ensures rexp.str[0] == Plus ==>
      GetLoops(rexp, track) == Next(WithText(rexp, rexp.str[1..]), track.(loopsMin := 1, loopsMax := Inf))
    ensures rexp.str[0] == Star ==>
      GetLoops(rexp, track) == Next(WithText(rexp, rexp.str[1..]), track.(loopsMin := 0, loopsMax := Inf))
  {
  }

  /** `{m}` gives exactly m iterations; leading zeros are allowed. */
  lemma LoopsExact(rexp: ReStruct, track: ReStruct, ds: Bytes, rest: Bytes)
    requires AllDigits(ds) && rexp.str == [LBrace] + ds + [RBrace] + rest
    ensures GetLoops(rexp, track) ==
      Next(WithText(rexp, rest), track.(loopsMin := DecimalValue(ds), loopsMax := DecimalValue(ds)))
  {
    var s := rexp.str;
    assert s[1..] == ds + ([RBrace] + rest);
    AToIStops(ds, [RBrace] + rest);
    CountStops(ds, [RBrace] + rest);
    assert s[|ds| + 2..] == rest;
  }

  /** `{m,}` gives at least m iterations. */
  lemma LoopsAtLeast(rexp: ReStruct, track: ReStruct, ds: Bytes, rest: Bytes)
    requires AllDigits(ds) && rexp.str == [LBrace] + ds + [Comma, RBrace] + rest
    ensures GetLoops(rexp, track) ==
      Next(WithText(rexp, rest), track.(loopsMin := DecimalValue(ds), loopsMax := Inf))
  {
    var s := rexp.str;
    assert s[1..] == ds + ([Comma, RBrace] + rest);
    AToIStops(ds, [Comma, RBrace] + rest);
    CountStops(ds, [Comma, RBrace] + rest);
    var p := 1 + |ds|;
    assert s[p] == Comma && s[p + 1] == RBrace;
    assert s[p + 2..] == rest;
  }

  /** A run of digits at offset i, followed by a non-digit or the end. */
  lemma NumberAt(s: Bytes, i: nat, ds: Bytes, tail: Bytes)
    requires i <= |s| && AllDigits(ds) && s[i..] == ds + tail
    requires |tail| == 0 || !IsDigit(tail[0])
    ensures AToI(s[i..]) == DecimalValue(ds) && CountCharDigits(s[i..]) == |ds|
    ensures s[i + |ds|..] == tail
  {
    AToIStops(ds, tail);
    CountStops(ds, tail);
    assert s[i + |ds|..] == s[i..][|ds|..];
  }

  /** The `{m,n}` branch of the brace reader, stated on the offsets it
      computes. */
  lemma BraceComma(rexp: ReStruct, t: ReStruct, p: nat, q: nat)
    requires |rexp.str| > 0 && p == 1 + CountCharDigits(rexp.str[1..]) && p + 2 <= |rexp.str|
    requires rexp.str[p] == Comma && rexp.str[p + 1] != RBrace
    requires q == p + 1 + CountCharDigits(rexp.str[p + 1..]) + 1 && q <= |rexp.str|
    ensures BraceLoops(rexp, t) ==
      Next(rexp.(str := rexp.str[q..]), t.(loopsMin := AToI(rexp.str[1..]), loopsMax := AToI(rexp.str[p + 1..])))
  {
  }

  /** `{m,n}` gives between m and n iterations: the minimum's digits fill
      [1, a), the comma is at a, the maximum's digits fill (a, b), and the
      closing brace is at b. */
  lemma LoopsBetween(rexp: ReStruct, track: ReStruct, a: nat, b: nat)
    requires 1 <= a < b < |rexp.str| && a + 1 < b
    requires rexp.str[0] == LBrace && rexp.str[a] == Comma && rexp.str[b] == RBrace
    requires AllDigits(rexp.str[1..a]) && AllDigits(rexp.str[a + 1..b])
    ensures GetLoops(rexp, track) ==
      Next(WithText(rexp, rexp.str[b + 1..]),
           track.(loopsMin := DecimalValue(rexp.str[1..a]), loopsMax := DecimalValue(rexp.str[a + 1..b])))
  {
    BraceBetween(rexp, track.(loopsMin := 1, loopsMax := 1), a, b);
  }

  lemma BraceBetween(rexp: ReStruct, t: ReStruct, a: nat, b: nat)
    requires 1 <= a < b < |rexp.str| && a + 1 < b
    requires rexp.str[a] == Comma && rexp.str[b] == RBrace
    requires AllDigits(rexp.str[1..a]) && AllDigits(rexp.str[a + 1..b])
    ensures BraceLoops(rexp, t) ==
      Next(rexp.(str := rexp.str[b + 1..]),
           t.(loopsMin := DecimalValue(rexp.str[1..a]), loopsMax := DecimalValue(rexp.str[a + 1..b])))
  {
    var s := rexp.str;
    DigitsUpTo(s, 1, a);
    DigitsUpTo(s, a + 1, b);
    assert s[a + 1] != RBrace by { assert IsDigit(s[a + 1..b][0]); }
    BraceComma(rexp, t, a, b + 1);
  }

  /** The digits filling [i, j) up to a non-digit at j. */
  lemma DigitsUpTo(s: Bytes, i: nat, j: nat)
    requires i <= j < |s| && AllDigits(s[i..j]) && !IsDigit(s[j])
    ensures AToI(s[i..]) == DecimalValue(s[i..j]) && CountCharDigits(s[i..]) == j - i
  {
    assert s[i..] == s[i..j] + s[j..];
    NumberAt(s, i, s[i..j], s[j..]);
  }

  // ---------------------------------------------------------------------
  // Modifiers.

  predicate IsModChar(b: bv8) {
    b == Caret || b == Dollar || b == Question || b == Tilde ||
    b == Star || b == Slash || b == Bang
  }

  function ApplyMod(b: bv8, m: bv8): bv8 {
    if b == Caret then m | ModAlpha
    else if b == Dollar then m | ModOmega
    else if b == Question then m | ModLonley
    else if b == Tilde then m | ModFwrByChar
    else if b == Star then m | ModCommunism
    else if b == Slash then m & ModCapitalism
    else if b == Bang then m | ModNegative
    else m
  }

  datatype ModScan = ModScan(mods: bv8, end: nat)

  /** Folds the modifier bytes from offset i on into m; `end` is the offset
      of the first byte that is not a modifier, or |s|. */
  function ModsAt(s: Bytes, i: nat, m: bv8): (r: ModScan)
    requires i <= |s|
    ensures i <= r.end <= |s|
    ensures r.end < |s| ==> !IsModChar(s[r.end])
    decreases |s| - i
  {
    if i == |s| || !IsModChar(s[i]) then ModScan(m, i)
    else ModsAt(s, i + 1, ApplyMod(s[i], m))
  }

  /** Every byte of the run is a modifier. */
  lemma {:induction false} ModsRun(s: Bytes, i: nat, m: bv8)
    requires i <= |s|
    ensures forall k :: i <= k < ModsAt(s, i, m).end ==> IsModChar(s[k])
    decreases |s| - i
  {
    if i < |s| && IsModChar(s[i]) {
      ModsRun(s, i + 1, ApplyMod(s[i], m));
    }
  }

  /** Clears negation on track, then reads a `#` modifier run at the head of
      rexp into track's modifier byte and drops it from rexp. */
  function GetModsSpec(rexp: ReStruct, track: ReStruct): (r: (ReStruct, ReStruct))
    ensures r.0 == rexp.(str := r.0.str) && r.1 == track.(mods := r.1.mods)
    ensures |r.0.str| <= |rexp.str|
  {
    var m := track.mods & ModPositive;
    var s := rexp.str;
    if |s| > 0 && s[0] == Hash then
      var r := ModsAt(s, 1, m);
      (rexp.(str := s[r.end..]), track.(mods := r.mods))
    else (rexp, track.(mods := m))
  }

  method GetMods(rexp: ReStruct, track: ReStruct) returns (rest: ReStruct, t: ReStruct)
    ensures (rest, t) == GetModsSpec(rexp, track)
    ensures rest == rexp.(str := rest.str) && t == track.(mods := t.mods)
    ensures SuffixOf(rest.str, rexp.str)
  {
    rest, t := rexp, track.(mods := track.mods & ModPositive);
    var s := rexp.str;
    if |s| > 0 && s[0] == Hash {
      var r := ScanMods(s, t.mods);
      rest, t := rexp.(str := s[r.end..]), t.(mods := r.mods);
    }
  }

  /** The modifier loop: folds the bytes after the `#` into the modifier
      byte up to the first byte that is not a modifier. */
  method ScanMods(s: Bytes, m: bv8) returns (r: ModScan)
    requires |s| >= 1
    ensures r == ModsAt(s, 1, m)
  {
    var mods := m;
    var i := 1;
    while i < |s|
      invariant 1 <= i <= |s|
      invariant ModsAt(s, i, mods) == ModsAt(s, 1, m)
      decreases |s| - i
    {
      if !IsModChar(s[i]) {
        return ModScan(mods, i);
      }
      mods := ApplyMod(s[i], mods);
      i := i + 1;
    }
    return ModScan(mods, |s|);
  }

  /** Bits that only a modifier byte sets: the bit is on after the run iff it
      was on before or the run holds that byte. */
  lemma {:induction false} ModsSetOnly(s: Bytes, i: nat, m: bv8, ch: bv8, bit: bv8)
    requires i <= |s|
    requires (ch, bit) in {(Caret, ModAlpha), (Dollar, ModOmega), (Question, ModLonley),
                           (Tilde, ModFwrByChar), (Bang, ModNegative)}
    ensures ModsAt(s, i, m).mods & bit != 0 <==>
      (m & bit != 0 || exists j :: i <= j < ModsAt(s, i, m).end && s[j] == ch)
    decreases |s| - i
  {
    if i < |s| && IsModChar(s[i]) {
      ModsSetOnly(s, i + 1, ApplyMod(s[i], m), ch, bit);
    }
  }

  // ---------------------------------------------------------------------
  // One fragment of a path.

  /** The fragment at the head of the text, before its quantifier and
      modifiers: dispatch on the first byte. */
  function HeadCut(rexp: ReStruct): Cut
  {
    var s := rexp.str;
    if |s| == 0 then NoMore
    else if s[0] > 127 then CutByLen(rexp, Utf8Meter(s), UTF8)
    else if s[0] == Colon then CutByLen(rexp, 2, Meta)
    else if s[0] == Dot then CutByLen(rexp, 1, Point)
    else if s[0] == At then CutByLen(rexp, 1 + CountCharDigits(s[1..]), Backref)
    else if s[0] == LParen then FromTypeCut(CutByTypeSpec(rexp, Group))
    else if s[0] == LAngle then FromTypeCut(CutByTypeSpec(rexp, Hook))
    else if s[0] == LBracket then FromTypeCut(CutByTypeSpec(rexp, Set))
    else CutByLen(rexp, SimpleLenFrom(s, 0), Simple)
  }

  /** A balanced cut as a fragment. Without its closer, a group or hook is
      handed back whole and the source recurses on it forever. */
  function FromTypeCut(c: TypeCut): Cut {
    match c
    case NoInput => NoMore
    case Closed(r, t) => Next(r, t)
    case Unclosed(_, _) => Malformed
    case Unterminated => Malformed
  }

  function TrackerSpec(rexp: ReStruct): Cut
  {
    match HeadCut(rexp)
    case Next(r, t) =>
      (match GetLoops(r, t)
       case Next(r2, t2) => var (r3, t3) := GetModsSpec(r2, t2); Next(r3, t3)
       case _ => Malformed)
    case other => other
  }

  /** The kind of fragment the first byte of a path fragment selects. */
  function KindOf(b: bv8): Inst {
    if b > 127 then UTF8
    else if b == Colon then Meta
    else if b == Dot then Point
    else if b == At then Backref
    else if b == LParen then Group
    else if b == LAngle then Hook
    else if b == LBracket then Set
    else Simple
  }

  predicate IsBracketKind(k: Inst) { k == Group || k == Hook || k == Set }

  /** The quantifier reader only drops a head of the text. */
  lemma LoopsSuffix(rexp: ReStruct, track: ReStruct)
    ensures GetLoops(rexp, track).Next? ==> SuffixOf(GetLoops(rexp, track).rest.str, rexp.str)
  {
    var s := rexp.str;
    if |s| > 0 && s[0] == LBrace {
      BraceSuffix(rexp, track.(loopsMin := 1, loopsMax := 1));
    } else if |s| > 0 && (s[0] == Question || s[0] == Plus || s[0] == Star) {
      DropSuffix(s, 1);
    }
  }

  lemma DropSuffix(s: Bytes, k: nat)
    requires k <= |s|
    ensures SuffixOf(s[k..], s)
  {
  }

  /** The brace reader only drops a head of the text. */
  lemma BraceSuffix(rexp: ReStruct, t: ReStruct)
    requires |rexp.str| > 0
    ensures BraceLoops(rexp, t).Next? ==> SuffixOf(BraceLoops(rexp, t).rest.str, rexp.str)
  {
    var s := rexp.str;
    var p := 1 + CountCharDigits(s[1..]);
    if p >= |s| {
    } else if s[p] == RBrace {
      DropSuffix(s, p + 1);
    } else if p + 2 > |s| {
    } else if s[p] == Comma && s[p + 1] == RBrace {
      DropSuffix(s, p + 2);
    } else if s[p] == Comma {
      var q := p + 1 + CountCharDigits(s[p + 1..]) + 1;
      if q <= |s| {
        DropSuffix(s, q);
      }
    } else {
      DropSuffix(s, p);
    }
  }

  /** The modifier reader only drops a head of the text. */
  lemma ModsSuffix(rexp: ReStruct, track: ReStruct)
    ensures SuffixOf(GetModsSpec(rexp, track).0.str, rexp.str)
  {
  }

  /** Leaf fragments: the fragment is the head of the text, one byte for
      `.`, two for an escape, `@` and its digits for a back-reference, one
      code point for a non-ASCII byte, and a literal is never empty. */
  lemma HeadCutLeaf(rexp: ReStruct)
    requires |rexp.str| > 0 && !IsBracketKind(KindOf(rexp.str[0])) && HeadCut(rexp).Next?
    ensures var s := rexp.str; var h := HeadCut(rexp);
      h.track.str + h.rest.str == s && |h.track.str| >= 1 &&
      h.track == rexp.(str := h.track.str, reType := KindOf(s[0])) && h.rest == rexp.(str := h.rest.str)
    ensures var s := rexp.str; var t := HeadCut(rexp).track;
      (t.reType == Meta ==> |t.str| == 2) && (t.reType == Point ==> |t.str| == 1) &&
      (t.reType == Backref ==> |t.str| == 1 + CountCharDigits(s[1..])) &&
      (t.reType == UTF8 ==> |t.str| == Utf8Meter(s))
  {
    var s := rexp.str;
    var n := if s[0] > 127 then Utf8Meter(s)
      else if s[0] == Colon then 2
      else if s[0] == Dot then 1
      else if s[0] == At then 1 + CountCharDigits(s[1..])
      else SimpleLenFrom(s, 0);
    assert HeadCut(rexp) == CutByLen(rexp, n, KindOf(s[0]));
    CutByLenParts(rexp, n, KindOf(s[0]));
    if KindOf(s[0]) == Simple {
      assert SimpleLenFrom(s, 0) == SimpleLenFrom(s, 1);
    }
  }

  /** Bracketed fragments: the fragment is the text between the opener at
      the head and its closer. */
  lemma HeadCutBracket(rexp: ReStruct)
    requires |rexp.str| > 0 && IsBracketKind(KindOf(rexp.str[0])) && HeadCut(rexp).Next?
    ensures var s := rexp.str; var h := HeadCut(rexp);
      |s| == |h.track.str| + 2 + |h.rest.str| &&
      s == [s[0]] + h.track.str + [s[|h.track.str| + 1]] + h.rest.str &&
      h.track == rexp.(str := h.track.str, reType := KindOf(s[0])) && h.rest == rexp.(str := h.rest.str)
    ensures var s := rexp.str; var t := HeadCut(rexp).track;
      (t.reType == Set ==> s[|t.str| + 1] == RBracket) &&
      (t.reType != Set ==> IsCloser(s[|t.str| + 1]))
  {
    var s := rexp.str;
    var k := KindOf(s[0]);
    assert CutRequest(s, k);
    assert HeadCut(rexp) == FromTypeCut(CutByTypeSpec(rexp, k));
    if k == Set {
      CutSetParts(rexp);
    } else {
      CutGroupParts(rexp, k);
    }
  }

  /** One tracker step ends only on an empty text, fails only where its head
      cut or quantifier fails, keeps the kind and text of the head cut, and
      leaves a strictly shorter tail of the text's remainder. */
  lemma TrackerFacts(rexp: ReStruct)
    ensures TrackerSpec(rexp).NoMore? <==> |rexp.str| == 0
    ensures TrackerSpec(rexp).Next? ==>
      var h := HeadCut(rexp);
      var c := TrackerSpec(rexp);
      h.Next? && c.track.reType == h.track.reType == KindOf(rexp.str[0]) &&
      c.track.str == h.track.str && SuffixOf(c.rest.str, h.rest.str) &&
      |c.rest.str| < |rexp.str| && c.rest == rexp.(str := c.rest.str)
  {
    var s := rexp.str;
    if |s| > 0 {
      var h := HeadCut(rexp);
      if h.Next? {
        if IsBracketKind(KindOf(s[0])) {
          HeadCutBracket(rexp);
        } else {
          HeadCutLeaf(rexp);
        }
        LoopsSuffix(h.rest, h.track);
        var l := GetLoops(h.rest, h.track);
        if l.Next? {
          ModsSuffix(l.rest, l.track);
          SuffixTrans(GetModsSpec(l.rest, l.track).0.str, l.rest.str, h.rest.str);
        }
      }
    }
  }

  method Tracker(rexp: ReStruct) returns (c: Cut)
    ensures c == TrackerSpec(rexp)
  {
    var s := rexp.str;
    if |s| == 0 {
      return NoMore;
    }
    var h := CutHead(rexp);
    if !h.Next? {
      return h;
    }
    var l := GetLoops(h.rest, h.track);
    if !l.Next? {
      return Malformed;
    }
    var r3, t3 := GetMods(l.rest, l.track);
    return Next(r3, t3);
  }

  /** The dispatch on the first byte of a path fragment. */
  method CutHead(rexp: ReStruct) returns (h: Cut)
    requires |rexp.str| > 0
    ensures h == HeadCut(rexp)
  {
    var s := rexp.str;
    if s[0] > 127 {
      h := CutByLen(rexp, Utf8Meter(s), UTF8);
    } else if s[0] == Colon {
      h := CutByLen(rexp, 2, Meta);
    } else if s[0] == Dot {
      h := CutByLen(rexp, 1, Point);
    } else if s[0] == At {
      h := CutByLen(rexp, 1 + CountCharDigits(s[1..]), Backref);
    } else if s[0] == LParen {
      var tc := CutByType(rexp, Group);
      h := FromTypeCut(tc);
    } else if s[0] == LAngle {
      var tc := CutByType(rexp, Hook);
      h := FromTypeCut(tc);
    } else if s[0] == LBracket {
      var tc := CutByType(rexp, Set);
      h := FromTypeCut(tc);
    } else {
      h := CutSimple(rexp);
    }
  }

  // ---------------------------------------------------------------------
  // One member of a set.

  /** Length and kind of a set member starting with an ASCII byte other than
      ':', scanning from offset i: a literal run up to a non-ASCII byte or an
      escape, or a range `x-y` when the dash is at offset 1. */
  function MemberCut(s: Bytes, i: nat): (r: (int, Inst))
    requires i <= |s|
    ensures r.1 == Simple || r.1 == Rangeab
    ensures r.1 == Rangeab ==> r.0 == 3 && |s| >= 2 && s[1] == Dash
    ensures r.1 == Simple ==> r.0 <= |s|
    ensures i >= 1 ==> r.0 >= 1
    decreases |s| - i
  {
    if i == |s| then (|s|, Simple)
    else if s[i] > 127 || s[i] == Colon then (i, Simple)
    else if s[i] == Dash then (if i == 1 then (3, Rangeab) else (i - 1, Simple))
    else MemberCut(s, i + 1)
  }

  /** The member at the head of a non-empty set text, before its bounds are
      reset. */
  function SetHead(rexp: ReStruct): Cut
    requires |rexp.str| > 0
  {
    var s := rexp.str;
    if s[0] > 127 then CutByLen(rexp, Utf8Meter(s), UTF8)
    else if s[0] == Colon then CutByLen(rexp, 2, Meta)
    else CutByLen(rexp, MemberCut(s, 0).0, MemberCut(s, 0).1)
  }

  /** A set member matches exactly once and is never negated. */
  function Once(c: Cut): Cut {
    match c
    case Next(r, t) => Next(r, t.(loopsMin := 1, loopsMax := 1, mods := t.mods & ModPositive))
    case _ => c
  }

  function TrackerSetSpec(rexp: ReStruct): Cut
  {
    if |rexp.str| == 0 then NoMore else Once(SetHead(rexp))
  }

  /** The head member is a literal run, a range, an escape or one code
      point, cut straight off the head of the set's text. */
  lemma SetHeadFacts(rexp: ReStruct)
    requires |rexp.str| > 0
    ensures SetHead(rexp).Next? ==>
      IsMember(SetHead(rexp).track.reType) && |SetHead(rexp).rest.str| < |rexp.str| &&
      SetHead(rexp).track.str + SetHead(rexp).rest.str == rexp.str
    ensures SetHead(rexp).Next? && SetHead(rexp).track.reType == Meta ==> |SetHead(rexp).track.str| == 2
    ensures SetHead(rexp).Next? && SetHead(rexp).track.reType == Rangeab ==> |SetHead(rexp).track.str| == 3
  {
    var s := rexp.str;
    var (n, kind) :=
      if s[0] > 127 then (Utf8Meter(s), UTF8)
      else if s[0] == Colon then (2, Meta)
      else MemberCut(s, 0);
    assert SetHead(rexp) == CutByLen(rexp, n, kind);
    if 0 <= n <= |s| {
      CutByLenParts(rexp, n, kind);
    }
    if s[0] <= 127 && s[0] != Colon && s[0] != Dash {
      assert MemberCut(s, 0) == MemberCut(s, 1);
    }
  }

  /** A set member is a literal run, a range, an escape or one code point;
      it is cut straight off the head of the set's text; it matches once and
      never negated. */
  lemma TrackerSetFacts(rexp: ReStruct)
    ensures TrackerSetSpec(rexp).NoMore? <==> |rexp.str| == 0
    ensures TrackerSetSpec(rexp).Next? ==>
      var r := TrackerSetSpec(rexp).rest;
      var t := TrackerSetSpec(rexp).track;
      IsMember(t.reType) && t.str + r.str == rexp.str && |r.str| < |rexp.str| &&
      (t.reType == Meta ==> |t.str| == 2) && (t.reType == Rangeab ==> |t.str| == 3) &&
      t.loopsMin == 1 && t.loopsMax == 1 && t.mods == rexp.mods & ModPositive && r == rexp.(str := r.str)
  {
    if |rexp.str| > 0 {
      var c := SetHead(rexp);
      SetHeadFacts(rexp);
      assert TrackerSetSpec(rexp) == Once(c);
      if c.Next? {
        assert c.track.mods == rexp.mods;
        assert Once(c).track == c.track.(loopsMin := 1, loopsMax := 1, mods := rexp.mods & ModPositive);
      }
    }
  }

  /** The source's member loop; every branch of it ends in one cut, made
      here after the loop from the length and kind it chose. */
  method TrackerSet(rexp: ReStruct) returns (c: Cut)
    ensures c == TrackerSetSpec(rexp)
  {
    var s := rexp.str;
    if |s| == 0 {
      return NoMore;
    }
    var n: int, kind: Inst;
    if s[0] > 127 {
      n, kind := Utf8Meter(s), UTF8;
    } else if s[0] == Colon {
      n, kind := 2, Meta;
    } else {
      var i := 0;
      n, kind := |s|, Simple;
      while i < |s|
        invariant i <= |s|
        invariant MemberCut(s, i) == MemberCut(s, 0)
      {
        if s[i] > 127 || s[i] == Colon {
          n := i;
          break;
        } else if s[i] == Dash {
          if i == 1 {
            n, kind := 3, Rangeab;
          } else {
            n := i - 1;
          }
          break;
        }
        i := i + 1;
      }
      assert (n, kind) == MemberCut(s, 0);
    }
    c := CutByLen(rexp, n, kind);
    assert c == SetHead(rexp);
    // The source's `setLM` step.
    c := Once(c);
  }
}
