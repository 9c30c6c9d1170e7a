/** The engine object: a compiled pattern, the text being matched, the
    interpreter's cursor and the capture slots. Compiling appends
    instructions to the arena and back-patches their `close` links;
    matching walks the arena with a backtracking interpreter that moves the
    cursor and opens and closes capture slots. */
module Regexp4 {
  import opened CharUtils
  import opened Asm
  import opened Tokenizer
  import opened Matchers
  import opened Captures

  /** An instruction with its link set. */
  function WithClose(x: RaptorAsm, c: int): (y: RaptorAsm)
    ensures y.re == x.re && y.inst == x.inst && y.close == c
  {
    x.(close := c)
  }

  /** The instruction the path compiler emits for a single fragment: its own
      kind for the leaf kinds it lists, a literal otherwise. */
  function LeafInst(k: Inst): (i: Inst)
    ensures IsLeaf(i)
    ensures IsLeaf(k) ==> i == k
  {
    if k == Backref || k == Meta || k == Rangeab || k == UTF8 || k == Point then k else Simple
  }

  /** The instruction the set compiler emits for a member. */
  function MemberInst(k: Inst): (i: Inst)
    ensures IsMember(i)
    ensures IsMember(k) ==> i == k
  {
    if k == Meta || k == Rangeab || k == UTF8 then k else Simple
  }

  /** A set text opening with `^`: the caret is dropped and negation is
      toggled. */
  function SetNegation(rexp: ReStruct): (r: ReStruct)
    requires |rexp.str| > 0
    ensures r.str == rexp.str[1..] && (r.mods & ModNegative != 0 <==> rexp.mods & ModNegative == 0)
    ensures r == rexp.(str := r.str, mods := r.mods)
    ensures r.mods & ModPositive == rexp.mods & ModPositive
  {
    if rexp.mods & ModNegative != 0 then rexp.(str := rexp.str[1..], mods := rexp.mods & ModPositive)
    else rexp.(str := rexp.str[1..], mods := rexp.mods | ModNegative)
  }

  /** The whole pattern as a path, after its leading `#` modifier run has
      been read into its own modifier byte: the source reads the run with
      the pattern as both the text and the fragment. */
  function GlobalRe(pattern: Bytes): ReStruct {
    var p0 := ReStruct(pattern, Path, 0, 0, 0);
    var g := GetModsSpec(p0, p0);
    p0.(str := g.0.str, mods := g.1.mods)
  }

  /** The global modifiers: with a `#` at the head, each anchoring or mode
      bit is on exactly when its byte occurs in the modifier run, and the
      pattern proper starts after the run; without one there are none. */
  lemma GlobalModifiers(pattern: Bytes)
    ensures var g := GlobalRe(pattern);
      g.reType == Path && SuffixOf(g.str, pattern) && g.loopsMin == 0 && g.loopsMax == 0
    ensures |pattern| == 0 || pattern[0] != Hash ==> GlobalRe(pattern) == ReStruct(pattern, Path, 0, 0, 0)
    ensures |pattern| > 0 && pattern[0] == Hash ==>
      var run := ModsAt(pattern, 1, 0);
      GlobalRe(pattern).str == pattern[run.end..] &&
      (GlobalRe(pattern).mods & ModAlpha != 0 <==> exists j :: 1 <= j < run.end && pattern[j] == Caret) &&
      (GlobalRe(pattern).mods & ModOmega != 0 <==> exists j :: 1 <= j < run.end && pattern[j] == Dollar) &&
      (GlobalRe(pattern).mods & ModLonley != 0 <==> exists j :: 1 <= j < run.end && pattern[j] == Question) &&
      (GlobalRe(pattern).mods & ModFwrByChar != 0 <==> exists j :: 1 <= j < run.end && pattern[j] == Tilde)
  {
    var p0 := ReStruct(pattern, Path, 0, 0, 0);
    ModsSuffix(p0, p0);
    if |pattern| > 0 && pattern[0] == Hash {
      assert 0 & ModPositive == 0;
      ModsSetOnly(pattern, 1, 0, Caret, ModAlpha);
      ModsSetOnly(pattern, 1, 0, Dollar, ModOmega);
      ModsSetOnly(pattern, 1, 0, Question, ModLonley);
      ModsSetOnly(pattern, 1, 0, Tilde, ModFwrByChar);
    }
  }

  // ---------------------------------------------------------------------
  // The patterns the compiler accepts: every cut it makes, at every depth,
  // succeeds. Where one fails the source panics or recurses forever.

  // Each predicate goes through two plain layers before its step, so that
  // a method that only hands the fact on does not unfold the tokenizer;
  // the Cases lemmas give the step to the methods that need it.

  /** The alternatives of a path, cut one after the other, all compile. */
  predicate PathOk(r: ReStruct)
    decreases |r.str|, 5
  {
    PathFrom(r)
  }

  predicate PathFrom(r: ReStruct)
    decreases |r.str|, 4
  {
    PathStep(r)
  }

  /** PathOk at one cut: the alternative cut off the head compiles, and so
      does the rest of the path. */
  predicate PathStep(r: ReStruct)
    decreases |r.str|, 3
  {
    match CutByTypeSpec(r, Path)
    case NoInput => true
    case Unterminated => false
    case Closed(rest, t) => PathCutShrinks(r); TracksOk(t) && PathOk(rest)
    case Unclosed(rest, t) => TracksOk(t) && PathOk(rest)
  }

  /** The fragments of one alternative, cut one after the other, all
      compile: a group or capture when its body is a path that compiles, a
      set when its members do, a leaf always. */
  predicate TracksOk(r: ReStruct)
    decreases |r.str|, 2
  {
    TracksFrom(r)
  }

  predicate TracksFrom(r: ReStruct)
    decreases |r.str|, 1
  {
    TracksStep(r)
  }

  /** TracksOk at one tracker step. */
  predicate TracksStep(r: ReStruct)
    decreases |r.str|, 0
  {
    TrackerShrinks(r);
    match TrackerSpec(r)
    case NoMore => true
    case Malformed => false
    case Next(rest, t) =>
      (if t.reType == Hook || t.reType == Group then PathOk(t)
       else if t.reType == Set then SetOk(t)
       else true) &&
      TracksOk(rest)
  }

  /** A tracker step leaves a shorter remainder, and a bracket's body is
      shorter than the text it was cut from. */
  lemma TrackerShrinks(r: ReStruct)
    ensures var c := TrackerSpec(r);
      c.Next? ==> |c.rest.str| < |r.str| && (c.track.reType == Hook || c.track.reType == Group ==> |c.track.str| < |r.str|)
  {
    TrackerFacts(r);
    var c := TrackerSpec(r);
    if c.Next? && (c.track.reType == Hook || c.track.reType == Group) {
      HeadCutBracket(r);
    }
  }

  /** The text of a set compiles when, after a leading `^`, its members do. */
  predicate SetOk(r: ReStruct) {
    |r.str| == 0 || MembersOk(if r.str[0] == Caret then SetNegation(r) else r)
  }

  /** The members of a set, cut one after the other, all compile. */
  predicate MembersOk(r: ReStruct)
    decreases |r.str|, 2
  {
    MembersFrom(r)
  }

  predicate MembersFrom(r: ReStruct)
    decreases |r.str|, 1
  {
    MembersStep(r)
  }

  /** MembersOk at one member. */
  predicate MembersStep(r: ReStruct)
    decreases |r.str|, 0
  {
    TrackerSetShrinks(r);
    match TrackerSetSpec(r)
    case NoMore => true
    case Malformed => false
    case Next(rest, _) => MembersOk(rest)
  }

  /** A member step leaves a shorter remainder. */
  lemma TrackerSetShrinks(r: ReStruct)
    ensures TrackerSetSpec(r).Next? ==> |TrackerSetSpec(r).rest.str| < |r.str|
  {
    TrackerSetFacts(r);
  }

  /** A path compiles when its text is used up; it fails at an unterminated
      cut; otherwise it compiles when the alternative cut off and the rest
      both do. */
  lemma PathOkCases(r: ReStruct)
    ensures var c := CutByTypeSpec(r, Path);
      (c.NoInput? ==> PathOk(r)) && (c.Unterminated? ==> !PathOk(r)) &&
      (c.Closed? || c.Unclosed? ==> (PathOk(r) <==> TracksOk(c.track) && PathOk(c.rest)))
  {
    assert PathOk(r) == PathFrom(r) == PathStep(r);
  }

  /** The fragments compile when the text is used up; they fail at a
      malformed fragment; otherwise they compile when the fragment cut off
      and the rest both do. */
  lemma TracksOkCases(r: ReStruct)
    ensures var c := TrackerSpec(r);
      (c.NoMore? ==> TracksOk(r)) && (c.Malformed? ==> !TracksOk(r)) &&
      (c.Next? ==> (TracksOk(r) <==>
        (if c.track.reType == Hook || c.track.reType == Group then PathOk(c.track)
         else if c.track.reType == Set then SetOk(c.track)
         else true) && TracksOk(c.rest)))
  {
    assert TracksOk(r) == TracksFrom(r) == TracksStep(r);
  }

  /** The members compile when the text is used up; they fail at a
      malformed member; otherwise they compile when the rest does. */
  lemma MembersOkCases(r: ReStruct)
    ensures var c := TrackerSetSpec(r);
      (c.NoMore? ==> MembersOk(r)) && (c.Malformed? ==> !MembersOk(r)) &&
      (c.Next? ==> (MembersOk(r) <==> MembersOk(c.rest)))
  {
    assert MembersOk(r) == MembersFrom(r) == MembersStep(r);
  }

  /** A text of letters and digits has no top-level `|`. */
  lemma {:induction false} AlnumScan(s: Bytes, i: nat, deep: int)
    requires i <= |s| && forall k :: i <= k < |s| ==> IsAlnum(s[k])
    ensures CutScan(s, i, deep, Path) == NotFound
    decreases |s| - i
  {
    if i < |s| {
      assert NextPos(s, i) == i && Depth(s[i], deep) == deep && Hop(s, i) == i;
      AlnumScan(s, i + 1, deep);
    }
  }

  /** A text of letters and digits is one literal. */
  lemma {:induction false} AlnumLiteral(s: Bytes, i: nat)
    requires i <= |s| && forall k :: i <= k < |s| ==> IsAlnum(s[k])
    ensures SimpleLenFrom(s, i) == |s|
    decreases |s| - i
  {
    if i < |s| {
      AlnumLiteral(s, i + 1);
    }
  }

  /** Every non-empty pattern of letters and digits compiles: it is one
      alternative holding one literal. */
  lemma AlnumCompiles(pattern: Bytes)
    requires |pattern| > 0 && forall k :: 0 <= k < |pattern| ==> IsAlnum(pattern[k])
    ensures PathOk(GlobalRe(pattern))
  {
    GlobalModifiers(pattern);
    var r := ReStruct(pattern, Path, 0, 0, 0);
    assert GlobalRe(pattern) == r;
    AlnumPath(r);
    AlnumTracks(r);
    PathOkCases(r);
    PathOkCases(r.(str := []));
  }

  /** The path cut of letters and digits is the whole text, unclosed. */
  lemma AlnumPath(r: ReStruct)
    requires r.reType == Path && |r.str| > 0 && forall k :: 0 <= k < |r.str| ==> IsAlnum(r.str[k])
    ensures CutByTypeSpec(r, Path) == Unclosed(r.(str := []), r)
  {
    AlnumScan(r.str, 0, 0);
  }

  /** Letters and digits are one literal fragment, and it compiles. */
  lemma AlnumTracks(r: ReStruct)
    requires |r.str| > 0 && forall k :: 0 <= k < |r.str| ==> IsAlnum(r.str[k])
    ensures TracksOk(r)
  {
    AlnumLiteral(r.str, 0);
    assert HeadCut(r) == CutByLen(r, |r.str|, Simple);
    TracksOkCases(r);
    var h := TrackerSpec(r);
    assert h.Next? && h.track.reType == Simple && h.rest.str == [];
    TracksOkCases(h.rest);
  }

  /** A lone `(` does not compile: the group has no closer, and the source
      would recurse on it forever. */
  lemma OpenGroupFails(pattern: Bytes)
    requires pattern == [LParen]
    ensures !PathOk(GlobalRe(pattern))
  {
    GlobalModifiers(pattern);
    var r := ReStruct(pattern, Path, 0, 0, 0);
    assert GlobalRe(pattern) == r;
    OpenPath(r);
    OpenTracks(r);
    PathOkCases(r);
  }

  /** The path cut of a lone `(` is the whole text, unclosed. */
  lemma OpenPath(r: ReStruct)
    requires r == ReStruct([LParen], Path, 0, 0, 0)
    ensures CutByTypeSpec(r, Path) == Unclosed(r.(str := []), r)
  {
    OpenScan(r.str, Path);
  }

  /** The fragments of a lone `(` do not compile. */
  lemma OpenTracks(r: ReStruct)
    requires r.str == [LParen]
    ensures !TracksOk(r)
  {
    OpenHead(r);
    TracksOkCases(r);
  }

  /** The tracker hands a lone `(` back as malformed. */
  lemma OpenHead(r: ReStruct)
    requires r.str == [LParen]
    ensures TrackerSpec(r) == Malformed
  {
    OpenScan(r.str, Group);
    assert CutByTypeSpec(r, Group) == Unclosed(r.(str := []), r.(reType := Group));
  }

  /** The scan over a lone `(` runs off the end at depth 1. */
  lemma OpenScan(s: Bytes, kind: Inst)
    requires s == [LParen] && (kind == Path || kind == Group)
    ensures CutScan(s, 0, 0, kind) == NotFound
  {
    assert NextPos(s, 0) == 0 && Hop(s, 0) == 0;
    assert Depth(s[0], 0) == 1 && !CutHere(kind, s[0], 1);
    CutScanEnd(s, 1, 1, kind);
    CutScanStep(s, 0, 0, kind, 0, 0);
  }

  class RE {
    var txt: Bytes
    var re: Bytes
    var compile: bool
    var result: int

    var txtInit: int
    var txtLen: int
    var txtPos: int

    var catches: seq<CatchInfo>
    var catchIndex: int
    var catchIdIndex: int

    var asm: seq<RaptorAsm>
    var mods: bv8

    /** What holds between calls: a compiled arena is well formed, and the
        committed capture slots are in the table and well formed. */
    predicate Valid()
      reads this
    {
      (compile ==> Arena(asm)) && 0 <= catchIndex &&
      (catchIndex > 1 ==> catchIndex <= |catches|) &&
      SlotsOk(catches, catchIndex) && IdsOk(catches, catchIndex)
    }

    /** A fresh engine holds the zero value of every field. */
    constructor ()
      ensures txt == [] && re == [] && !compile && result == 0
      ensures txtInit == 0 && txtLen == 0 && txtPos == 0
      ensures catches == [] && catchIndex == 0 && catchIdIndex == 0 && asm == [] && mods == 0
      ensures Valid()
    {
      txt, re, compile, result := [], [], false, 0;
      txtInit, txtLen, txtPos := 0, 0, 0;
      catches, catchIndex, catchIdIndex := [], 0, 0;
      asm, mods := [], 0;
    }

    // -------------------------------------------------------------------
    // The compiler. Each emitter appends to the arena, leaves what was
    // there untouched, and on success appends one piece of the grammar;
    // it fails only on a malformed pattern.

    /** Compiles a pattern: reads the global modifiers, emits the path block
        of the whole pattern and the final End. The empty pattern leaves the
        previous arena in place and the engine uncompiled. */
    method Compile(pattern: Bytes)
      modifies this`catchIndex, this`compile, this`re, this`asm, this`mods
      ensures catchIndex == 1
      ensures |pattern| == 0 ==> !compile && re == old(re) && asm == old(asm) && mods == old(mods)
      ensures |pattern| > 0 ==> re == pattern && mods == GlobalRe(pattern).mods
      ensures compile <==> |pattern| > 0 && PathOk(GlobalRe(pattern))
      ensures compile ==> Arena(asm) && asm[0].re == GlobalRe(pattern)
      ensures Valid()
    {
      catchIndex := 1;
      compile := false;
      if |pattern| == 0 {
        return;
      }
      re := pattern;
      asm := [];
      var p0 := ReStruct(pattern, Path, 0, 0, 0);
      var rest, t := GetMods(p0, p0);
      var rexp := p0.(str := rest.str, mods := t.mods);
      assert rexp == GlobalRe(pattern);
      mods := rexp.mods;
      var ok := GenPaths(rexp);
      if !ok {
        return;
      }
      ghost var mid := asm;
      asm := asm + [RaptorAsm(ZeroRe, End, |asm|)];
      BlockFrame(mid, asm, 0, |mid|);
      compile := true;
    }

    /** A path block: Path, one PathEle per alternative (each linked to the
        next), PathEnd. A trailing empty alternative is not emitted. */
    method GenPaths(rexp: ReStruct) returns (ok: bool)
      modifies this`asm
      ensures |asm| >= |old(asm)| && asm[..|old(asm)|] == old(asm)
      ensures ok == PathOk(rexp)
      ensures ok ==> |asm| >= |old(asm)| + 2 && Block(asm, |old(asm)|, |asm|) && asm[|old(asm)|].re == rexp
      decreases |rexp.str|, 4
    {
      var n0 := |asm|;
      asm := asm + [RaptorAsm(rexp, Path, 0)];
      ghost var before := asm;
      ok := GenAlternatives(rexp);
      PrefixKept(before, asm, n0);
      if !ok {
        return;
      }
      ClosePath(n0);
    }

    /** The alternatives of a path block, emitted one after the other. */
    method GenAlternatives(rexp: ReStruct) returns (ok: bool)
      modifies this`asm
      ensures |asm| >= |old(asm)| && asm[..|old(asm)|] == old(asm)
      ensures ok == PathOk(rexp)
      ensures ok ==> Eles(asm, |old(asm)|, |asm|)
      decreases |rexp.str|, 3
    {
      var n1 := |asm|;
      var r := rexp;
      var done := false;
      ok := true;
      while !done
        invariant |r.str| <= |rexp.str|
        invariant |asm| >= n1 && asm[..n1] == old(asm)
        invariant Eles(asm, n1, |asm|)
        invariant ok && PathOk(r) == PathOk(rexp) && (done ==> PathOk(r))
        decreases |r.str|, !done
      {
        ghost var before := asm;
        ok, done, r := PathTurn(r);
        PrefixKept(before, asm, n1);
        if !ok {
          return;
        }
        if !done {
          ElesGrow(before, asm, n1);
        }
      }
    }

    /** Links the Path at n0 to a PathEnd appended after its alternatives. */
    method ClosePath(n0: int)
      requires 0 <= n0 < |asm| && asm[n0].inst == Path && Eles(asm, n0 + 1, |asm|)
      modifies this`asm
      ensures |asm| == |old(asm)| + 1 && asm[..n0] == old(asm)[..n0] && asm[n0].re == old(asm)[n0].re
      ensures Block(asm, n0, |asm|)
    {
      ghost var before := asm;
      var h := |asm|;
      asm := asm[n0 := WithClose(asm[n0], h)];
      asm := asm + [RaptorAsm(ZeroRe, PathEnd, h)];
      ElesFrame(before, asm, n0 + 1, h);
    }

    /** One turn of GenPaths: cuts the next alternative off r and emits it;
        done when r is used up. */
    method PathTurn(r: ReStruct) returns (ok: bool, done: bool, rest: ReStruct)
      modifies this`asm
      ensures |asm| >= |old(asm)| && asm[..|old(asm)|] == old(asm)
      ensures done ==> ok && |r.str| == 0 && asm == old(asm) && rest == r && PathOk(r)
      ensures !ok ==> !PathOk(r)
      ensures ok && !done ==> PathOk(rest) == PathOk(r)
      ensures ok && !done ==>
        |rest.str| < |r.str| && |asm| > |old(asm)| &&
        asm[|old(asm)|].inst == PathEle && asm[|old(asm)|].close == |asm| && Items(asm, |old(asm)| + 1, |asm|)
      decreases |r.str|, 2
    {
      var c := CutByType(r, Path);
      PathOkCases(r);
      if c.NoInput? {
        return true, true, r;
      }
      ok, done, rest := false, false, r;
      if !c.Unterminated? {
        if c.Closed? {
          PathCutShrinks(r);
        }
        ok := EmitAlternative(c.track);
        rest := c.rest;
      }
    }

    /** One alternative: a PathEle, the items of the alternative, and the
        PathEle linked to the index after them. */
    method EmitAlternative(t: ReStruct) returns (ok: bool)
      modifies this`asm
      ensures |asm| > |old(asm)| && asm[..|old(asm)|] == old(asm)
      ensures ok == TracksOk(t)
      ensures ok ==> asm[|old(asm)|] == RaptorAsm(t, PathEle, |asm|) && Items(asm, |old(asm)| + 1, |asm|)
      decreases |t.str|, 1
    {
      var ti := |asm|;
      asm := asm + [RaptorAsm(t, PathEle, 0)];
      ok := GenTracks(t);
      if !ok {
        return;
      }
      CloseAlternative(ti);
    }

    /** Links the PathEle at ti to the index after its items. */
    method CloseAlternative(ti: int)
      requires 0 <= ti < |asm| && Items(asm, ti + 1, |asm|)
      modifies this`asm
      ensures asm == old(asm)[ti := WithClose(old(asm)[ti], |asm|)]
      ensures Items(asm, ti + 1, |asm|)
    {
      ghost var mid := asm;
      var h := |asm|;
      asm := asm[ti := WithClose(asm[ti], h)];
      ItemsFrame(mid, asm, ti + 1, h);
    }

    /** The items of one alternative, fragment by fragment. */
    method GenTracks(rexp: ReStruct) returns (ok: bool)
      modifies this`asm
      ensures |asm| >= |old(asm)| && asm[..|old(asm)|] == old(asm)
      ensures ok == TracksOk(rexp)
      ensures ok ==> Items(asm, |old(asm)|, |asm|)
      decreases |rexp.str|, 0
    {
      var n0 := |asm|;
      var r := rexp;
      while true
        invariant |r.str| <= |rexp.str|
        invariant |asm| >= n0 && asm[..n0] == old(asm)
        invariant Items(asm, n0, |asm|)
        invariant TracksOk(r) == TracksOk(rexp)
        decreases |r.str|
      {
        var c := Tracker(r);
        TrackerFacts(r);
        TracksOkCases(r);
        if c.NoMore? {
          break;
        }
        if c.Malformed? {
          return false;
        }
        ghost var before := asm;
        var t := c.track;
        if t.reType == Hook || t.reType == Group {
          HeadCutBracket(r);
          ok := EmitBracket(t);
        } else if t.reType == Set {
          ok := GenSet(t);
        } else {
          HeadCutLeaf(r);
          EmitLeaf(t);
          ok := true;
        }
        PrefixKept(before, asm, n0);
        if !ok {
          return;
        }
        ItemsGrow(before, asm, n0);
        r := c.rest;
      }
      ok := true;
    }

    /** A leaf fragment: one instruction that closes on itself. */
    method EmitLeaf(t: ReStruct)
      requires t.reType == Meta ==> |t.str| == 2
      requires t.reType == Backref ==> |t.str| >= 1
      requires t.reType != Rangeab
      modifies this`asm
      ensures asm == old(asm) + [RaptorAsm(t, LeafInst(t.reType), |old(asm)|)]
      ensures Items(asm, |old(asm)|, |asm|)
    {
      var ti := |asm|;
      asm := asm + [RaptorAsm(t, LeafInst(t.reType), ti)];
      assert Item(asm, ti, ti);
    }

    /** A group or hook: the opener, the path block of its body, the closer;
        the opener is linked to the closer. */
    method EmitBracket(t: ReStruct) returns (ok: bool)
      requires t.reType == Group || t.reType == Hook
      modifies this`asm
      ensures |asm| >= |old(asm)| && asm[..|old(asm)|] == old(asm)
      ensures ok == PathOk(t)
      ensures ok ==> |asm| > |old(asm)| && Items(asm, |old(asm)|, |asm|) && asm[|old(asm)|].re == t
      decreases |t.str|, 5
    {
      var ti := |asm|;
      asm := asm + [RaptorAsm(t, t.reType, 0)];
      ghost var before := asm;
      ok := GenPaths(t);
      PrefixKept(before, asm, ti);
      if !ok {
        return;
      }
      CloseBracket(ti);
    }

    /** Links the opener at ti to the matching closer appended after the
        path block that follows it. */
    method CloseBracket(ti: int)
      requires 0 <= ti && ti + 3 <= |asm| && (asm[ti].inst == Group || asm[ti].inst == Hook)
      requires Block(asm, ti + 1, |asm|)
      modifies this`asm
      ensures |asm| == |old(asm)| + 1 && asm[..ti] == old(asm)[..ti] && asm[ti].re == old(asm)[ti].re
      ensures Items(asm, ti, |asm|)
    {
      ghost var mid := asm;
      var h := |asm|;
      asm := asm[ti := WithClose(asm[ti], h)];
      asm := asm + [RaptorAsm(ZeroRe, if asm[ti].inst == Hook then HookEnd else GroupEnd, h)];
      assert Agree(mid, asm, ti + 1, h);
      BracketItems(mid, asm, ti);
    }

    /** A set: Set, one instruction per member, SetEnd; the Set is linked to
        the SetEnd. An empty set text emits nothing. */
    method GenSet(rexp: ReStruct) returns (ok: bool)
      modifies this`asm
      ensures |asm| >= |old(asm)| && asm[..|old(asm)|] == old(asm)
      ensures |rexp.str| == 0 ==> asm == old(asm) && ok
      ensures ok == SetOk(rexp)
      ensures ok ==> Items(asm, |old(asm)|, |asm|)
    {
      if |rexp.str| == 0 {
        return true;
      }
      var s := if rexp.str[0] == Caret then SetNegation(rexp) else rexp;
      var si := |asm|;
      asm := asm + [RaptorAsm(s, Set, 0)];
      ghost var before := asm;
      ok := GenMembers(s);
      PrefixKept(before, asm, si);
      if !ok {
        return;
      }
      CloseSet(si);
    }

    /** The members of a set, one instruction each that closes on itself. */
    method GenMembers(rexp: ReStruct) returns (ok: bool)
      modifies this`asm
      ensures |asm| >= |old(asm)| && asm[..|old(asm)|] == old(asm)
      ensures ok == MembersOk(rexp)
      ensures ok ==> Members(asm, |old(asm)|, |asm|)
    {
      var n0 := |asm|;
      var r := rexp;
      while true
        invariant |asm| >= n0 && asm[..n0] == old(asm)
        invariant Members(asm, n0, |asm|)
        invariant MembersOk(r) == MembersOk(rexp)
        decreases |r.str|
      {
        var c := TrackerSet(r);
        TrackerSetFacts(r);
        MembersOkCases(r);
        if c.NoMore? {
          break;
        }
        if c.Malformed? {
          return false;
        }
        asm := asm + [RaptorAsm(c.track, MemberInst(c.track.reType), |asm|)];
        r := c.rest;
      }
      ok := true;
    }

    /** Links the Set at si to a SetEnd appended after its members. */
    method CloseSet(si: int)
      requires 0 <= si < |asm| && asm[si].inst == Set && Members(asm, si + 1, |asm|)
      modifies this`asm
      ensures |asm| == |old(asm)| + 1 && asm[..si] == old(asm)[..si]
      ensures Items(asm, si, |asm|)
    {
      var h := |asm|;
      asm := asm[si := WithClose(asm[si], h)];
      asm := asm + [RaptorAsm(ZeroRe, SetEnd, h)];
      assert Item(asm, si, h);
    }

    // -------------------------------------------------------------------
    // The interpreter. One attempt runs the arena against the text from
    // txtInit on; txtPos is the cursor relative to txtInit and may run past
    // txtLen, since a set or a negated group can step over the end.

    /** What holds throughout one attempt; c0 is the slot counter when the
        attempt began, so the slots opened so far are numbered 1, 2, ... and
        the next capture opened gets number catchIndex - c0 + 1. */
    predicate Running(c0: int)
      reads this
    {
      Wf(asm) && 0 <= txtInit && 0 <= txtLen && txtInit + txtLen == |txt| && 0 <= txtPos &&
      1 <= c0 <= catchIndex <= |catches| && catchIdIndex == catchIndex - c0 + 1 &&
      SlotsOk(catches, catchIndex) && IdsOk(catches, catchIndex) && IdsFrom(catches, c0, catchIndex)
    }

    /** The interpreter only moves forward: the cursor and the slot counter
        never go back, the table never shrinks, and no slot committed before
        the call is rewritten. */
    twostate predicate Forward()
      reads this
    {
      old(txtPos) <= txtPos && old(catchIndex) <= catchIndex && old(|catches|) <= |catches| &&
      forall k :: 0 <= k < old(catchIndex) && k < old(|catches|) ==> catches[k] == old(catches[k])
    }

    /** What one atom does at the head of the remaining text t. */
    function AtomStep(index: int, t: Bytes): (r: Step)
      reads this`asm, this`txt, this`catches, this`catchIndex
      requires Wf(asm) && 0 <= index < |asm| - 1 && IsAtom(asm[index].inst) && |t| >= 1
      requires catchIndex <= |catches|
      ensures r.forward >= 0
    {
      assert LocalOk(asm, index);
      var x := asm[index];
      if x.inst == Point then Step(true, Utf8Meter(t))
      else if x.inst == Set then
        WfSetMembers(asm, index);
        SetScanForward(asm, index + 1, x.close, t, 1);
        SetScan(asm, index + 1, x.close, t, 1)
      else if x.inst == Backref then BackrefStep(x.re, t, txt, catches, catchIndex)
      else if x.inst == Rangeab then MatchRange(x.re, t)
      else if x.inst == Meta then MatchMeta(x.re, t)
      else MatchText(x.re, t)
    }

    /** Opens a capture slot at the cursor: the slot at the counter is
        overwritten, or appended when the table is full, and the counter and
        the id both step on. */
    method OpenCatch(ghost c0: int) returns (index: int)
      requires Running(c0)
      modifies this`catches, this`catchIndex, this`catchIdIndex
      ensures index == old(catchIndex)
      ensures catchIndex == old(catchIndex) + 1 && catchIdIndex == old(catchIdIndex) + 1
      ensures catches == (if index < |old(catches)|
        then old(catches)[index := CatchInfo(txtInit + txtPos, txtInit + txtPos, old(catchIdIndex))]
        else old(catches) + [CatchInfo(txtInit + txtPos, txtInit + txtPos, old(catchIdIndex))])
      ensures Running(c0)
    {
      index := catchIndex;
      var slot := CatchInfo(txtInit + txtPos, txtInit + txtPos, catchIdIndex);
      if catchIndex < |catches| {
        catches := catches[index := slot];
      } else {
        catches := catches + [slot];
      }
      catchIndex := catchIndex + 1;
      catchIdIndex := catchIdIndex + 1;
    }

    /** Closes slot index at the cursor, when that slot is still open in the
        current attempt. */
    method CloseCatch(index: int)
      requires 0 <= index && (index < catchIndex ==> index < |catches|)
      modifies this`catches
      ensures catches == (if index < catchIndex
        then old(catches)[index := old(catches)[index].(end := txtInit + txtPos)]
        else old(catches))
    {
      if index < catchIndex {
        catches := catches[index := catches[index].(end := txtInit + txtPos)];
      }
    }

    /** The newest committed slot with the given id, or the table length
        when there is none. */
    method LastIdCatch(id: int) returns (index: int)
      requires catchIndex <= |catches|
      ensures index == LastIdFrom(catches, catchIndex - 1, id)
    {
      index := catchIndex - 1;
      while index > 0
        invariant index <= catchIndex - 1
        invariant LastIdFrom(catches, index, id) == LastIdFrom(catches, catchIndex - 1, id)
        decreases index
      {
        if catches[index].id == id {
          return;
        }
        index := index - 1;
      }
      index := |catches|;
    }

    /** A back-reference against the remaining text t. */
    method MatchBackRef(rexp: ReStruct, t: Bytes) returns (st: Step)
      requires |rexp.str| >= 1 && catchIndex <= |catches|
      ensures st == BackrefStep(rexp, t, txt, catches, catchIndex)
    {
      var id := ScanAToI(rexp.str[1..]);
      var bi := LastIdCatch(id);
      var s := GetCatch(bi);
      if |s| <= |t| {
        SameFromPrefix(s, t, 0);
      }
      st := Step(!(s == [] || |t| < |s| || s != t[..|s|]), |s|);
    }

    /** A set against the remaining text t: the members in order until one
        accepts. */
    method MatchSet(index: int, t: Bytes) returns (st: Step)
      requires Wf(asm) && 0 <= index < |asm| - 1 && asm[index].inst == Set && |t| >= 1
      ensures (WfSetMembers(asm, index); st == SetScan(asm, index + 1, asm[index].close, t, 1))
    {
      WfSetMembers(asm, index);
      var hi := asm[index].close;
      var fwd := 1;
      var i := index + 1;
      while asm[i].inst != SetEnd
        invariant index + 1 <= i <= hi
        invariant SetScan(asm, i, hi, t, fwd) == SetScan(asm, index + 1, hi, t, 1)
        decreases hi - i
      {
        var x := asm[i];
        var s: Step;
        if x.inst == Rangeab || x.inst == UTF8 || x.inst == Meta {
          s := MemberStep(x, t);
        } else {
          s := Step(LiteralHit(x, t[0]), fwd);
        }
        if s.ok {
          return s;
        }
        fwd := s.forward;
        i := i + 1;
      }
      st := Step(false, fwd);
    }

    /** One atom against the remaining text t. */
    method MatchAt(index: int, t: Bytes) returns (st: Step)
      requires Wf(asm) && 0 <= index < |asm| - 1 && IsAtom(asm[index].inst) && |t| >= 1
      requires catchIndex <= |catches|
      ensures st == AtomStep(index, t)
    {
      assert LocalOk(asm, index);
      var x := asm[index];
      if x.inst == Point {
        st := Step(true, Utf8Meter(t));
      } else if x.inst == Set {
        st := MatchSet(index, t);
      } else if x.inst == Backref {
        st := MatchBackRef(x.re, t);
      } else if x.inst == Rangeab {
        st := MatchRange(x.re, t);
      } else if x.inst == Meta {
        st := MatchMeta(x.re, t);
      } else {
        st := MatchText(x.re, t);
      }
    }

    /** The cursor after k negated repetitions of the atom at index from
        cursor p: at each one the atom fails on the text left and the cursor
        steps over one code point. -1 when one of them finds the text used
        up or the atom matching. */
    function UnlessAt(index: int, p: int, k: nat): (q: int)
      reads this`asm, this`txt, this`txtInit, this`txtLen, this`catches, this`catchIndex
      requires Wf(asm) && 0 <= index < |asm| - 1 && IsAtom(asm[index].inst)
      requires 0 <= txtInit && txtInit + txtLen == |txt| && 0 <= p && catchIndex <= |catches|
      ensures q == -1 || p + k <= q
      decreases k, 2
    {
      UnlessFrom(index, p, k)
    }

    function UnlessFrom(index: int, p: int, k: nat): (q: int)
      reads this`asm, this`txt, this`txtInit, this`txtLen, this`catches, this`catchIndex
      requires Wf(asm) && 0 <= index < |asm| - 1 && IsAtom(asm[index].inst)
      requires 0 <= txtInit && txtInit + txtLen == |txt| && 0 <= p && catchIndex <= |catches|
      ensures q == -1 || p + k <= q
      decreases k, 1
    {
      UnlessStep(index, p, k)
    }

    /** UnlessAt at its last repetition. The definition goes through two
        plain layers so that a fact about UnlessAt does not bring in the
        atom at every earlier cursor; UnlessNext gives the step. */
    function UnlessStep(index: int, p: int, k: nat): (q: int)
      reads this`asm, this`txt, this`txtInit, this`txtLen, this`catches, this`catchIndex
      requires Wf(asm) && 0 <= index < |asm| - 1 && IsAtom(asm[index].inst)
      requires 0 <= txtInit && txtInit + txtLen == |txt| && 0 <= p && catchIndex <= |catches|
      ensures q == -1 || p + k <= q
      decreases k, 0
    {
      if k == 0 then p
      else
        var q := UnlessAt(index, p, k - 1);
        if 0 <= q < txtLen && !AtomStep(index, txt[txtInit + q..]).ok
        then q + Utf8Meter(txt[txtInit + q..]) else -1
    }

    /** The cursor after k plain repetitions of the atom at index from
        cursor p: at each one the atom matches the text left and the cursor
        steps over what it matched. -1 when one of them finds the text used
        up or the atom failing. */
    function WhileAt(index: int, p: int, k: nat): (q: int)
      reads this`asm, this`txt, this`txtInit, this`txtLen, this`catches, this`catchIndex
      requires Wf(asm) && 0 <= index < |asm| - 1 && IsAtom(asm[index].inst)
      requires 0 <= txtInit && txtInit + txtLen == |txt| && 0 <= p && catchIndex <= |catches|
      ensures q == -1 || p <= q
      decreases k, 2
    {
      WhileFrom(index, p, k)
    }

    function WhileFrom(index: int, p: int, k: nat): (q: int)
      reads this`asm, this`txt, this`txtInit, this`txtLen, this`catches, this`catchIndex
      requires Wf(asm) && 0 <= index < |asm| - 1 && IsAtom(asm[index].inst)
      requires 0 <= txtInit && txtInit + txtLen == |txt| && 0 <= p && catchIndex <= |catches|
      ensures q == -1 || p <= q
      decreases k, 1
    {
      WhileStep(index, p, k)
    }

    /** WhileAt at its last repetition, behind two plain layers as for
        UnlessAt; WhileNext gives the step. */
    function WhileStep(index: int, p: int, k: nat): (q: int)
      reads this`asm, this`txt, this`txtInit, this`txtLen, this`catches, this`catchIndex
      requires Wf(asm) && 0 <= index < |asm| - 1 && IsAtom(asm[index].inst)
      requires 0 <= txtInit && txtInit + txtLen == |txt| && 0 <= p && catchIndex <= |catches|
      ensures q == -1 || p <= q
      decreases k, 0
    {
      if k == 0 then p
      else
        var q := WhileAt(index, p, k - 1);
        if 0 <= q < txtLen && AtomStep(index, txt[txtInit + q..]).ok
        then q + AtomStep(index, txt[txtInit + q..]).forward else -1
    }

    /** One more negated repetition from cursor q, the cursor after k: it
        steps one code point on when the atom fails there, and is -1 when
        the atom matches. */
    lemma UnlessNext(index: int, p: int, k: nat, q: int)
      requires Wf(asm) && 0 <= index < |asm| - 1 && IsAtom(asm[index].inst)
      requires 0 <= txtInit && txtInit + txtLen == |txt| && 0 <= p && catchIndex <= |catches|
      requires q == UnlessAt(index, p, k) && 0 <= q < txtLen
      ensures UnlessAt(index, p, k + 1) ==
        if AtomStep(index, txt[txtInit + q..]).ok then -1 else q + Utf8Meter(txt[txtInit + q..])
    {
      assert UnlessAt(index, p, k + 1) == UnlessFrom(index, p, k + 1) == UnlessStep(index, p, k + 1);
    }

    /** One more plain repetition from cursor q, the cursor after k: it
        steps past what the atom matched there, and is -1 when the atom
        fails. */
    lemma WhileNext(index: int, p: int, k: nat, q: int)
      requires Wf(asm) && 0 <= index < |asm| - 1 && IsAtom(asm[index].inst)
      requires 0 <= txtInit && txtInit + txtLen == |txt| && 0 <= p && catchIndex <= |catches|
      requires q == WhileAt(index, p, k) && 0 <= q < txtLen
      ensures WhileAt(index, p, k + 1) ==
        if AtomStep(index, txt[txtInit + q..]).ok then q + AtomStep(index, txt[txtInit + q..]).forward else -1
    {
      assert WhileAt(index, p, k + 1) == WhileFrom(index, p, k + 1) == WhileStep(index, p, k + 1);
    }

    /** Repeats one atom as often as its loop bounds allow, for as long as
        it matches (or, negated, for as long as it does not, stepping one
        code point at a time). Succeeds when it repeated at least loopsMin
        times; when it stopped below loopsMax with text left, one more
        repetition was not possible. */
    method Looper(index: int, ghost c0: int) returns (ok: bool, ghost iters: int)
      requires Running(c0) && 0 <= index < |asm| - 1 && IsAtom(asm[index].inst)
      modifies this`txtPos
      ensures Running(c0) && txtPos >= old(txtPos)
      ensures 0 <= iters && (iters == 0 || iters <= asm[index].re.loopsMax)
      ensures ok <==> iters >= asm[index].re.loopsMin
      ensures asm[index].re.mods & ModNegative != 0 ==> txtPos == UnlessAt(index, old(txtPos), iters)
      ensures asm[index].re.mods & ModNegative != 0 && iters < asm[index].re.loopsMax && txtPos < txtLen ==>
        UnlessAt(index, old(txtPos), iters + 1) == -1
      ensures asm[index].re.mods & ModNegative == 0 ==> txtPos == WhileAt(index, old(txtPos), iters)
      ensures asm[index].re.mods & ModNegative == 0 && iters < asm[index].re.loopsMax && txtPos < txtLen ==>
        WhileAt(index, old(txtPos), iters + 1) == -1
      ensures asm[index].re.mods & ModNegative != 0 ==> txtPos - old(txtPos) >= iters
      decreases |asm| - index, 1
    {
      var loops: int;
      var pos: int;
      if asm[index].re.mods & ModNegative != 0 {
        loops, pos := RepeatUnless(index, txtPos);
      } else {
        loops, pos := RepeatWhile(index, txtPos);
      }
      txtPos := pos;
      iters := loops;
      ok := loops >= asm[index].re.loopsMin;
    }

    /** The negated repetition of Looper from cursor p: steps one code point
        at a time while the atom does not match; returns the count and the
        cursor it stopped at, where no further repetition is possible unless
        the bound or the text ran out. */
    method RepeatUnless(index: int, p: int) returns (loops: int, pos: int)
      requires Wf(asm) && 0 <= index < |asm| - 1 && IsAtom(asm[index].inst)
      requires 0 <= txtInit && txtInit + txtLen == |txt| && 0 <= p && catchIndex <= |catches|
      ensures 0 <= loops && (loops == 0 || loops <= asm[index].re.loopsMax)
      ensures pos == UnlessAt(index, p, loops) && p + loops <= pos
      ensures loops < asm[index].re.loopsMax && pos < txtLen ==> UnlessAt(index, p, loops + 1) == -1
    {
      var max := asm[index].re.loopsMax;
      loops, pos := 0, p;
      assert UnlessAt(index, p, 0) == UnlessFrom(index, p, 0) == UnlessStep(index, p, 0);
      while loops < max && pos < txtLen
        invariant 0 <= loops && (loops == 0 || loops <= max)
        invariant pos == UnlessAt(index, p, loops) && p + loops <= pos
        decreases max - loops
      {
        var stop, next := UnlessTurn(index, p, loops, pos);
        if stop {
          return;
        }
        pos, loops := next, loops + 1;
      }
    }

    /** One turn of RepeatUnless at cursor q, the cursor after k turns: it
        stops where the atom matches, and otherwise moves one code point on. */
    method UnlessTurn(index: int, ghost p: int, ghost k: nat, q: int) returns (stop: bool, next: int)
      requires Wf(asm) && 0 <= index < |asm| - 1 && IsAtom(asm[index].inst)
      requires 0 <= txtInit && txtInit + txtLen == |txt| && 0 <= p && catchIndex <= |catches|
      requires q == UnlessAt(index, p, k) && 0 <= q < txtLen
      ensures stop ==> UnlessAt(index, p, k + 1) == -1
      ensures !stop ==> next == UnlessAt(index, p, k + 1) && next > q
    {
      var st := MatchAt(index, txt[txtInit + q..]);
      stop := st.ok;
      next := q + Utf8Meter(txt[txtInit + q..]);
      UnlessNext(index, p, k, q);
    }

    /** The plain repetition of Looper from cursor p: steps by the atom's
        forward while the atom matches; returns the count and the cursor it
        stopped at, where no further repetition is possible unless the bound
        or the text ran out. */
    method RepeatWhile(index: int, p: int) returns (loops: int, pos: int)
      requires Wf(asm) && 0 <= index < |asm| - 1 && IsAtom(asm[index].inst)
      requires 0 <= txtInit && txtInit + txtLen == |txt| && 0 <= p && catchIndex <= |catches|
      ensures 0 <= loops && (loops == 0 || loops <= asm[index].re.loopsMax)
      ensures pos == WhileAt(index, p, loops) && p <= pos
      ensures loops < asm[index].re.loopsMax && pos < txtLen ==> WhileAt(index, p, loops + 1) == -1
    {
      var max := asm[index].re.loopsMax;
      loops, pos := 0, p;
      assert WhileAt(index, p, 0) == WhileFrom(index, p, 0) == WhileStep(index, p, 0);
      while loops < max && pos < txtLen
        invariant 0 <= loops && (loops == 0 || loops <= max)
        invariant pos == WhileAt(index, p, loops) && p <= pos
        decreases max - loops
      {
        var stop, next := WhileTurn(index, p, loops, pos);
        if stop {
          return;
        }
        pos, loops := next, loops + 1;
      }
    }

    /** One turn of RepeatWhile at cursor q, the cursor after k turns: it
        stops where the atom fails, and otherwise moves past what it
        matched. */
    method WhileTurn(index: int, ghost p: int, ghost k: nat, q: int) returns (stop: bool, next: int)
      requires Wf(asm) && 0 <= index < |asm| - 1 && IsAtom(asm[index].inst)
      requires 0 <= txtInit && txtInit + txtLen == |txt| && 0 <= p && catchIndex <= |catches|
      requires q == WhileAt(index, p, k) && 0 <= q < txtLen
      ensures stop ==> WhileAt(index, p, k + 1) == -1
      ensures !stop ==> next == WhileAt(index, p, k + 1) && next >= q
    {
      var st := MatchAt(index, txt[txtInit + q..]);
      stop := !st.ok;
      next := q + st.forward;
      WhileNext(index, p, k, q);
    }

    /** Repeats a group (or a capture) as often as its loop bounds allow:
        for as long as its body matches, or, negated, for as long as it does
        not, stepping one byte past the start each time. */
    method LoopGroup(index: int, ghost c0: int) returns (ok: bool, ghost iters: int)
      requires Running(c0) && 0 <= index < |asm| - 1
      modifies this`txtPos, this`catches, this`catchIndex, this`catchIdIndex
      ensures Running(c0) && Forward()
      ensures 0 <= iters && (iters == 0 || iters <= asm[index].re.loopsMax)
      ensures ok <==> iters >= asm[index].re.loopsMin
      ensures asm[index].re.mods & ModNegative != 0 ==> txtPos == old(txtPos) + iters
      decreases |asm| - index, 2
    {
      var x := asm[index];
      var loops := 0;
      var pos := txtPos;
      if x.re.mods & ModNegative != 0 {
        while loops < x.re.loopsMax
          invariant Running(c0) && Forward() && pos == old(txtPos) + loops
          invariant 0 <= loops && (loops == 0 || loops <= x.re.loopsMax)
          decreases x.re.loopsMax - loops
        {
          var r := Trekking(index + 1, c0);
          if r {
            break;
          }
          pos := pos + 1;
          txtPos := pos;
          loops := loops + 1;
        }
        txtPos := pos;
      } else {
        while loops < x.re.loopsMax
          invariant Running(c0) && Forward()
          invariant 0 <= loops && (loops == 0 || loops <= x.re.loopsMax)
          decreases x.re.loopsMax - loops
        {
          var r := Trekking(index + 1, c0);
          if !r {
            break;
          }
          loops := loops + 1;
        }
      }
      iters := loops;
      ok := loops >= x.re.loopsMin;
    }

    /** Tries the alternatives of a path in order; on failure of one the
        cursor and the slot counters are put back before the next. When no
        alternative matches nothing the attempt depends on has moved. */
    method Walker(index: int, ghost c0: int) returns (ok: bool)
      requires Running(c0) && 0 <= index < |asm| - 1
      modifies this`txtPos, this`catches, this`catchIndex, this`catchIdIndex
      ensures Running(c0) && Forward()
      ensures !ok ==> txtPos == old(txtPos) && catchIndex == old(catchIndex) && catchIdIndex == old(catchIdIndex)
      decreases |asm| - index, 2
    {
      var i := index + 1;
      var oTxtPos, oCatchIndex, oCatchIdIndex := txtPos, catchIndex, catchIdIndex;
      while asm[i].inst == PathEle
        invariant index < i < |asm|
        invariant Running(c0) && Forward()
        invariant txtPos == oTxtPos && catchIndex == oCatchIndex && catchIdIndex == oCatchIdIndex
        decreases |asm| - i
      {
        assert LocalOk(asm, i);
        var r := Trekking(i + 1, c0);
        if r {
          return true;
        }
        i := asm[i].close;
        txtPos, catchIndex, catchIdIndex := oTxtPos, oCatchIndex, oCatchIdIndex;
      }
      ok := false;
    }

    /** Runs a sequence of items from index on up to the end of its block,
        failing as soon as one item fails. */
    method Trekking(index: int, ghost c0: int) returns (ok: bool)
      requires Running(c0) && 0 <= index < |asm|
      modifies this`txtPos, this`catches, this`catchIndex, this`catchIdIndex
      ensures Running(c0) && Forward()
      decreases |asm| - index, 4
    {
      var i := index;
      while asm[i].inst != End
        invariant index <= i < |asm|
        invariant Running(c0) && Forward()
        decreases |asm| - i
      {
        assert LocalOk(asm, i);
        var k := asm[i].inst;
        if k == PathEnd || k == PathEle || k == GroupEnd || k == HookEnd || k == SetEnd {
          return true;
        }
        var r := TrekItem(i, c0);
        if !r {
          return false;
        }
        i := asm[i].close + 1;
      }
      ok := true;
    }

    /** One item of Trekking: a capture, a group, a path block or an atom
        with its repetition. */
    method TrekItem(i: int, ghost c0: int) returns (r: bool)
      requires Running(c0) && 0 <= i < |asm| - 1
      requires asm[i].inst !in {End, PathEnd, PathEle, GroupEnd, HookEnd, SetEnd}
      modifies this`txtPos, this`catches, this`catchIndex, this`catchIdIndex
      ensures Running(c0) && Forward()
      decreases |asm| - i, 3
    {
      assert LocalOk(asm, i);
      var k := asm[i].inst;
      ghost var it: int;
      if k == Hook {
        var iCatch := OpenCatch(c0);
        r, it := LoopGroup(i, c0);
        if r {
          CloseCatch(iCatch);
        }
      } else if k == Group {
        r, it := LoopGroup(i, c0);
      } else if k == Path {
        r := Walker(i, c0);
      } else {
        r, it := Looper(i, c0);
      }
    }

    // -------------------------------------------------------------------
    // Matching.

    /** Matches the compiled pattern against t and returns the number of
        matches. Every start offset is tried (only offset 0 under `#^`),
        stepping one code point, or past a non-empty match unless `#~`; the
        capture slots of failed attempts are dropped. `#$` accepts only a
        match that ends with the text and `#?` stops at the first match. */
    method MatchString(t: Bytes) returns (n: int)
      requires Valid()
      modifies this`txt, this`result, this`catches, this`catchIndex, this`catchIdIndex
      modifies this`txtPos, this`txtInit, this`txtLen
      ensures Valid() && txt == t && n == result
      ensures 0 <= n <= |t|
      ensures |t| == 0 || !compile ==> n == 0
      ensures n == 0 ==> catchIndex == 1
      ensures mods & ModAlpha != 0 || mods & ModOmega != 0 || mods & ModLonley != 0 ==> n <= 1
      ensures mods & ModOmega != 0 && n > 0 ==> txtInit + txtPos == |t|
      ensures mods & ModAlpha != 0 && |t| > 0 && compile ==> txtInit == 0
    {
      var loops := |t|;
      txt, result := t, 0;
      catches := seq(32, _ => CatchInfo(0, 0, 0));
      catchIndex := 1;
      if |t| == 0 || !compile {
        return 0;
      }
      if mods & ModAlpha != 0 {
        loops := 1;
      }
      ArenaWf(asm);
      var i := 0;
      while i < loops
        invariant 0 <= i && loops <= |t| && txt == t
        invariant 0 <= result <= loops && result <= i
        invariant mods & ModOmega != 0 || mods & ModLonley != 0 ==> result == 0
        invariant result == 0 ==> catchIndex == 1
        invariant 1 <= catchIndex <= |catches| && SlotsOk(catches, catchIndex) && IdsOk(catches, catchIndex)
        invariant mods & ModAlpha != 0 ==> loops == 1 && (i > 0 ==> txtInit == 0)
        decreases loops - i
      {
        var stop, forward := TryAt(i);
        if stop {
          return 1;
        }
        i := i + forward;
      }
      n := result;
    }

    /** One turn of MatchString at offset i: an attempt, then what its
        outcome does to the count, the slots and the stride. It stops the
        scan on a match under `#$` that ends with the text or under `#?`. */
    method TryAt(i: int) returns (stop: bool, forward: int)
      requires Wf(asm) && 0 <= i < |txt|
      requires 1 <= catchIndex <= |catches| && SlotsOk(catches, catchIndex) && IdsOk(catches, catchIndex)
      modifies this`result, this`catches, this`catchIndex, this`catchIdIndex
      modifies this`txtPos, this`txtInit, this`txtLen
      ensures 1 <= catchIndex <= |catches| && SlotsOk(catches, catchIndex) && IdsOk(catches, catchIndex)
      ensures forward >= 1
      ensures stop ==> result == 1 && (mods & ModOmega != 0 || mods & ModLonley != 0)
      ensures stop && mods & ModOmega != 0 ==> txtInit + txtPos == |txt|
      ensures !stop ==> old(result) <= result <= old(result) + 1
      ensures !stop && (mods & ModOmega != 0 || mods & ModLonley != 0) ==> result == old(result)
      ensures !stop && result == old(result) && old(catchIndex) == 1 ==> catchIndex == 1
      ensures !stop && result == old(result) ==>
        catchIndex == old(catchIndex) || (mods & ModOmega != 0 && catchIndex == 1)
      ensures txtInit == i
      ensures !stop ==> forward == (if result == old(result) + 1 && mods & ModFwrByChar == 0 && txtPos != 0
                                    then txtPos else Utf8Meter(txt[i..]))
    {
      forward := Utf8Meter(txt[i..]);
      var oc := catchIndex;
      var r := Attempt(i);
      stop := false;
      if r {
        if mods & ModOmega != 0 {
          if txtPos == txtLen {
            result, stop := 1, true;
          } else {
            catchIndex := 1;
          }
        } else if mods & ModLonley != 0 {
          result, stop := 1, true;
        } else if mods & ModFwrByChar != 0 || txtPos == 0 {
          result := result + 1;
        } else {
          forward := txtPos;
          result := result + 1;
        }
      } else {
        catchIndex := oc;
      }
    }

    /** One attempt at offset i: the cursor starts at i, the capture ids at
        1, and the arena runs from its first instruction. The slots stay
        well formed, and none is lost. */
    method Attempt(i: int) returns (r: bool)
      requires Wf(asm) && 0 <= i <= |txt|
      requires 1 <= catchIndex <= |catches| && SlotsOk(catches, catchIndex) && IdsOk(catches, catchIndex)
      modifies this`txtPos, this`txtInit, this`txtLen, this`catches, this`catchIndex, this`catchIdIndex
      ensures txtInit == i && txtLen == |txt| - i && 0 <= txtPos
      ensures old(catchIndex) <= catchIndex <= |catches|
      ensures SlotsOk(catches, catchIndex) && IdsOk(catches, catchIndex)
    {
      catchIdIndex := 1;
      txtPos, txtInit, txtLen := 0, i, |txt| - i;
      ghost var c0 := catchIndex;
      r := Trekking(0, c0);
    }

    /** Compiles the pattern and matches it against t. */
    method Match(t: Bytes, pattern: Bytes) returns (n: int)
      requires Valid()
      modifies this
      ensures Valid() && txt == t && n == result && 0 <= n <= |t|
      ensures |pattern| == 0 ==> n == 0
      ensures |pattern| > 0 ==> re == pattern && mods == GlobalRe(pattern).mods
    {
      Compile(pattern);
      n := MatchString(t);
    }

    /** Whether the pattern matches somewhere in t. */
    method Find(t: Bytes, pattern: Bytes) returns (found: bool)
      requires Valid()
      modifies this
      ensures Valid() && txt == t && (found <==> result > 0)
      ensures |pattern| == 0 ==> !found
      ensures |pattern| > 0 ==> re == pattern
    {
      var n := Match(t, pattern);
      found := n > 0;
    }

    /** Whether the compiled pattern matches somewhere in t. */
    method FindString(t: Bytes) returns (found: bool)
      requires Valid()
      modifies this`txt, this`result, this`catches, this`catchIndex, this`catchIdIndex
      modifies this`txtPos, this`txtInit, this`txtLen
      ensures Valid() && txt == t && (found <==> result > 0)
      ensures |t| == 0 || !compile ==> !found
    {
      var n := MatchString(t);
      found := n > 0;
    }

    // -------------------------------------------------------------------
    // Reading the captures of the last match.

    /** The number of matches the last call to MatchString counted. */
    function Result(): int
      reads this
    {
      result
    }

    /** The number of captures the last match left: the readers answer
        empty for every index outside 1 .. TotCatch(). */
    function TotCatch(): (r: int)
      reads this
      ensures Valid() ==> r >= -1
      ensures forall i :: !(1 <= i <= r) ==> GetCatch(i) == [] && GpsCatch(i) == 0 && LenCatch(i) == 0
    {
      catchIndex - 1
    }

    /** The text of capture index: empty outside the committed slots, and
        otherwise the bytes of the text from the slot's start to its end. */
    function GetCatch(index: int): (s: Bytes)
      reads this
      ensures !(1 <= index < catchIndex) ==> s == []
      ensures Valid() && 1 <= index < catchIndex && catches[index].end <= |txt| ==>
        |s| == catches[index].end - catches[index].init &&
        forall j :: 0 <= j < |s| ==> s[j] == txt[catches[index].init + j]
    {
      CatchText(txt, catches, catchIndex, index)
    }

    /** The offset of capture index in the text: 0 outside the committed
        slots, never negative. */
    function GpsCatch(index: int): (r: int)
      reads this
      ensures !(1 <= index < catchIndex) ==> r == 0
      ensures Valid() ==> r >= 0
    {
      CatchPos(catches, catchIndex, index)
    }

    /** The length of capture index: 0 outside the committed slots, never
        negative, and the length of GetCatch(index) for a slot inside the
        text. */
    function LenCatch(index: int): (r: int)
      reads this
      ensures !(1 <= index < catchIndex) ==> r == 0
      ensures Valid() ==> r >= 0
      ensures Valid() && 1 <= index < catchIndex && catches[index].end <= |txt| ==>
        r == |GetCatch(index)| && GpsCatch(index) + r == catches[index].end
    {
      CatchLen(catches, catchIndex, index)
    }

    /** The slots that exist: the counter, cut to the table (the two differ
        only before the first match, when no slot is committed). */
    function Top(): (n: int)
      reads this
      ensures n <= |catches| && n <= catchIndex
    {
      if catchIndex <= |catches| then catchIndex else |catches|
    }

    /** Replaces the text of every capture numbered id by rplStr. The result
        is written into a buffer sized from the slot lengths, so it is the
        reference replacement cut to that size; with no such capture it is
        the text itself. */
    method RplCatch(rplStr: Bytes, id: int) returns (res: Bytes)
      requires Valid() && StartsInText(txt, catches, Top(), id)
      requires CountIn(catches, 1, Top(), id) > 0 ==>
        RplSize(txt, catches, Top(), id, rplStr, mods & ModFwrByChar != 0) >= 0
      ensures CountIn(catches, 1, Top(), id) == 0 ==> res == txt
      ensures CountIn(catches, 1, Top(), id) > 0 ==>
        res == Truncate(OldRplCatch(txt, catches, Top(), id, rplStr),
                        RplSize(txt, catches, Top(), id, rplStr, mods & ModFwrByChar != 0))
    {
      var n := Top();
      var rpls, catchLens := CountSlots(id);
      if rpls == 0 {
        return txt;
      }
      if mods & ModFwrByChar != 0 {
        catchLens := 0;
      }
      var size := |txt| - catchLens + rpls * |rplStr|;
      var buf := new bv8[size];
      var gps := SpliceInto(buf, n, rplStr, id);
      res := buf[..gps];
    }

    /** The first pass of RplCatch: how many existing slots carry the id,
        and their total length. */
    method CountSlots(id: int) returns (rpls: int, catchLens: int)
      ensures rpls == CountIn(catches, 1, Top(), id) && catchLens == LensIn(catches, 1, Top(), id)
    {
      var n := Top();
      rpls, catchLens := 0, 0;
      if n < 1 {
        return;
      }
      var index := 1;
      while index < n
        invariant 1 <= index <= n
        invariant rpls == CountIn(catches, 1, index, id) && catchLens == LensIn(catches, 1, index, id)
        decreases n - index
      {
        if catches[index].id == id {
          rpls := rpls + 1;
          catchLens := catchLens + catches[index].end - catches[index].init;
        }
        index := index + 1;
      }
    }

    /** The second pass of RplCatch: writes the replacement into buf, as
        much of it as fits, and returns how many bytes it wrote. */
    method SpliceInto(buf: array<bv8>, n: int, rplStr: Bytes, id: int) returns (gps: int)
      requires 1 <= n <= |catches| && SlotsOk(catches, n) && StartsInText(txt, catches, n, id)
      modifies buf
      ensures gps == |Truncate(OldRplCatch(txt, catches, n, id, rplStr), buf.Length)|
      ensures buf[..gps] == Truncate(OldRplCatch(txt, catches, n, id, rplStr), buf.Length)
    {
      var last := 0;
      gps := 0;
      ghost var acc: Bytes := [];
      var index := 1;
      while index < n
        invariant 1 <= index <= n && 0 <= last
        invariant acc + SpliceFrom(txt, catches, index, n, id, rplStr, last) == OldRplCatch(txt, catches, n, id, rplStr)
        invariant gps == |Truncate(acc, buf.Length)| && buf[..gps] == Truncate(acc, buf.Length)
        decreases n - index
      {
        if catches[index].id == id {
          gps, last, acc := RplSlot(buf, gps, last, index, rplStr, acc, n, id);
        }
        index := index + 1;
      }
      if last < |txt| {
        var m := CopyAt(buf, gps, txt[last..], acc);
        acc, gps := acc + txt[last..], gps + m;
      }
    }

    /** The second pass of RplCatch at a slot of the id: the text from the
        end of the previous slot (or from this slot's start, when slots
        overlap) up to this slot, then the replacement. */
    method RplSlot(buf: array<bv8>, gps: int, last: int, index: int, rplStr: Bytes,
                   ghost acc: Bytes, ghost n: int, ghost id: int)
      returns (gps': int, last': int, ghost acc': Bytes)
      requires 1 <= index < n <= |catches| && catches[index].id == id && 0 <= last
      requires SlotsOk(catches, n) && StartsInText(txt, catches, n, id)
      requires gps == |Truncate(acc, buf.Length)| && buf[..gps] == Truncate(acc, buf.Length)
      modifies buf
      ensures last' == catches[index].end && 0 <= last'
      ensures acc' + SpliceFrom(txt, catches, index + 1, n, id, rplStr, last') ==
        acc + SpliceFrom(txt, catches, index, n, id, rplStr, last)
      ensures gps' == |Truncate(acc', buf.Length)| && buf[..gps'] == Truncate(acc', buf.Length)
    {
      var from := last;
      if from > catches[index].init {
        from := catches[index].init;
      }
      var piece := txt[from..catches[index].init];
      var m := CopyAt(buf, gps, piece, acc);
      gps', acc' := gps + m, acc + piece;
      m := CopyAt(buf, gps', rplStr, acc');
      gps', acc' := gps' + m, acc' + rplStr;
      last' := catches[index].end;
      assert acc' + SpliceFrom(txt, catches, index + 1, n, id, rplStr, last') ==
        acc + (piece + rplStr + SpliceFrom(txt, catches, index + 1, n, id, rplStr, last'));
    }

    /** Expands a template: `##` is a `#`, `#n` is the text of capture n,
        and every other byte is copied. */
    method PutCatch(pStr: Bytes) returns (res: Bytes)
      ensures res == Expand(txt, catches, catchIndex, pStr)
    {
      res := [];
      var i := 0;
      while i < |pStr|
        invariant 0 <= i <= |pStr|
        invariant res + Expand(txt, catches, catchIndex, pStr[i..]) == Expand(txt, catches, catchIndex, pStr)
        decreases |pStr| - i
      {
        var piece, j := PutPiece(pStr, i);
        assert (res + piece) + Expand(txt, catches, catchIndex, pStr[j..]) ==
          res + (piece + Expand(txt, catches, catchIndex, pStr[j..]));
        res, i := res + piece, j;
      }
    }

    /** One step of PutCatch: the piece the template yields at i, and where
        the next piece starts. */
    method PutPiece(pStr: Bytes, i: int) returns (piece: Bytes, j: int)
      requires 0 <= i < |pStr|
      ensures i < j <= |pStr|
      ensures piece + Expand(txt, catches, catchIndex, pStr[j..]) == Expand(txt, catches, catchIndex, pStr[i..])
    {
      ExpandStep(txt, catches, catchIndex, pStr, i);
      j := i;
      if pStr[j] == Hash {
        j := j + 1;
        if |pStr[j..]| > 0 && pStr[j] == Hash {
          j := j + 1;
          piece := [Hash];
        } else {
          var k := ScanAToI(pStr[j..]);
          piece := GetCatch(k);
          j := j + CountCharDigits(pStr[j..]);
        }
      } else {
        piece := pStr[j..j + 1];
        assert piece == [pStr[i]];
        j := j + 1;
      }
    }

    /** A new engine with the same pattern, arena, text, result and
        committed slots; the table holds exactly catchIndex slots and the
        attempt state is zero. */
    method Copy() returns (nre: RE)
      requires 0 <= catchIndex
      ensures fresh(nre)
      ensures nre.txt == txt && nre.re == re && nre.compile == compile && nre.result == result
      ensures nre.catchIndex == catchIndex && nre.mods == mods && nre.asm == asm
      ensures |nre.catches| == catchIndex
      ensures forall k :: 0 <= k < catchIndex ==>
        nre.catches[k] == if k < |catches| then catches[k] else CatchInfo(0, 0, 0)
      ensures nre.txtInit == 0 && nre.txtLen == 0 && nre.txtPos == 0 && nre.catchIdIndex == 0
      ensures Valid() ==> nre.Valid()
    {
      nre := new RE();
      nre.txt, nre.re, nre.compile, nre.result := txt, re, compile, result;
      nre.catchIndex, nre.mods := catchIndex, mods;
      nre.catches := seq(catchIndex, k requires 0 <= k < catchIndex reads this =>
        if k < |catches| then catches[k] else CatchInfo(0, 0, 0));
      nre.asm := asm;
    }
  }

  /** Copies as much of src as fits into buf from gps on and returns how
      many bytes that was. With acc all that was written before, the buffer
      then holds the first bytes of acc + src, as many as it has room for. */
  method CopyAt(buf: array<bv8>, gps: int, src: Bytes, ghost acc: Bytes) returns (m: int)
    requires gps == |Truncate(acc, buf.Length)| && buf[..gps] == Truncate(acc, buf.Length)
    modifies buf
    ensures m == if buf.Length - gps < |src| then buf.Length - gps else |src|
    ensures gps + m == |Truncate(acc + src, buf.Length)| && buf[..gps + m] == Truncate(acc + src, buf.Length)
  {
    TruncateAppend(acc, src, buf.Length);
    m := if buf.Length - gps < |src| then buf.Length - gps else |src|;
    var j := 0;
    while j < m
      invariant 0 <= j <= m
      invariant buf[..gps + j] == old(buf[..gps]) + src[..j]
      decreases m - j
    {
      buf[gps + j] := src[j];
      assert buf[..gps + j + 1] == buf[..gps + j] + [src[j]];
      assert src[..j + 1] == src[..j] + [src[j]];
      j := j + 1;
    }
  }

  /** Creates an engine and compiles the pattern into it. */
  method Compile(pattern: Bytes) returns (r: RE)
    ensures fresh(r) && r.Valid() && r.catchIndex == 1
    ensures |pattern| == 0 ==> !r.compile
    ensures |pattern| > 0 ==> r.re == pattern && r.mods == GlobalRe(pattern).mods
    ensures r.compile <==> |pattern| > 0 && PathOk(GlobalRe(pattern))
    ensures r.compile ==> Arena(r.asm) && r.asm[0].re == GlobalRe(pattern)
  {
    r := new RE();
    r.Compile(pattern);
  }
}
