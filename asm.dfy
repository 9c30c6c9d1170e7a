/** The compiled form of a pattern: a flat arena of instructions whose
    `close` fields link each opener to its closer, and the catch slots the
    interpreter fills while matching. */
module Asm {
  import opened CharUtils

  /** Unbounded repetition is written as 2^30 iterations. */
  const Inf: int := 1073741824

  // Modifier bits.
  const ModAlpha: bv8 := 1        // anchor at the start of the text
  const ModOmega: bv8 := 2        // anchor at the end of the text
  const ModLonley: bv8 := 4       // stop at the first match
  const ModFwrByChar: bv8 := 8    // after a match, move on by one code point
  const ModCommunism: bv8 := 16   // ASCII case-insensitive
  const ModNegative: bv8 := 128   // negate the fragment
  const ModPositive: bv8 := 0x7F  // mask that clears negation
  const ModCapitalism: bv8 := 0xEF  // mask that clears case-insensitivity

  /** Instruction kinds, in the order of the source's opcode numbering. */
  datatype Inst =
    | Path | PathEle | PathEnd
    | Group | GroupEnd | Hook | HookEnd | Set | SetEnd
    | Backref | Meta | Rangeab | UTF8 | Point | Simple | End

  /** A pattern fragment: its text, its kind, its modifier byte and its
      repetition bounds. */
  datatype ReStruct = ReStruct(str: Bytes, reType: Inst, mods: bv8, loopsMin: int, loopsMax: int)

  /** The zero value of a fragment (the source's kind 0 is Path). */
  const ZeroRe := ReStruct([], Path, 0, 0, 0)

  datatype RaptorAsm = RaptorAsm(re: ReStruct, inst: Inst, close: int)

  /** A capture slot: absolute start and end offsets and the capture id. */
  datatype CatchInfo = CatchInfo(init: int, end: int, id: int)

  predicate IsLeaf(k: Inst) {
    k == Backref || k == Meta || k == Rangeab || k == UTF8 || k == Point || k == Simple
  }

  /** Kinds the set compiler emits between Set and SetEnd. */
  predicate IsMember(k: Inst) { k == Meta || k == Rangeab || k == UTF8 || k == Simple }

  /** Kinds the interpreter runs through its single-atom loop. */
  predicate IsAtom(k: Inst) { IsLeaf(k) || k == Set }

  /** Fragment texts long enough for the bytes the matchers read. */
  predicate FragmentOk(x: RaptorAsm) {
    (x.inst == Meta ==> |x.re.str| == 2) &&
    (x.inst == Rangeab ==> |x.re.str| == 3) &&
    (x.inst == Backref ==> |x.re.str| >= 1)
  }

  // ---------------------------------------------------------------------
  // The arena grammar. Indices are absolute positions in the arena.

  /** A sequence of sibling items filling [lo, hi). */
  predicate Items(a: seq<RaptorAsm>, lo: nat, hi: nat)
    requires lo <= hi <= |a|
    decreases hi - lo, 2
  {
    lo == hi ||
    (var c := a[lo].close;
     lo <= c < hi && Item(a, lo, c) && Items(a, c + 1, hi))
  }

  /** One item occupying [lo, c]: a leaf that closes on itself, a group or
      hook around a path block, or a set around its members. */
  predicate Item(a: seq<RaptorAsm>, lo: nat, c: nat)
    requires lo <= c < |a|
    decreases c - lo + 1, 1
  {
    var x := a[lo];
    x.close == c &&
    if IsLeaf(x.inst) then c == lo && FragmentOk(x)
    else if x.inst == Group || x.inst == Hook then
      lo + 3 <= c && a[c].inst == (if x.inst == Group then GroupEnd else HookEnd) &&
      a[c].close == c && Block(a, lo + 1, c)
    else if x.inst == Set then
      lo < c && a[c].inst == SetEnd && a[c].close == c && Members(a, lo + 1, c)
    else false
  }

  /** A path block occupying [lo, hi): Path at lo whose close is the PathEnd
      at hi - 1, and between them a chain of alternatives. */
  predicate Block(a: seq<RaptorAsm>, lo: nat, hi: nat)
    requires lo + 2 <= hi <= |a|
    decreases hi - lo, 0
  {
    a[lo].inst == Path && a[lo].close == hi - 1 &&
    a[hi - 1].inst == PathEnd && a[hi - 1].close == hi - 1 &&
    Eles(a, lo + 1, hi - 1)
  }

  /** A chain of alternatives filling [k, h): each PathEle closes on the next
      PathEle, the last one on h (where the PathEnd sits). */
  predicate Eles(a: seq<RaptorAsm>, k: nat, h: nat)
    requires k <= h <= |a|
    decreases h - k, 2
  {
    k == h ||
    (var c := a[k].close;
     a[k].inst == PathEle && k < c <= h && Items(a, k + 1, c) && Eles(a, c, h))
  }

  predicate Members(a: seq<RaptorAsm>, lo: nat, hi: nat)
    requires lo <= hi <= |a|
  {
    forall k :: lo <= k < hi ==> IsMember(a[k].inst) && a[k].close == k && FragmentOk(a[k])
  }

  /** A compiled pattern: one top-level path block followed by the single End. */
  predicate Arena(a: seq<RaptorAsm>) {
    |a| >= 3 && Block(a, 0, |a| - 1) &&
    a[|a| - 1].inst == End && a[|a| - 1].close == |a| - 1
  }

  // ---------------------------------------------------------------------
  // Local well-formedness: what the interpreter relies on at each index.

  predicate LocalOk(a: seq<RaptorAsm>, i: nat)
    requires i < |a|
  {
    var x := a[i];
    i <= x.close < |a| - 1 && x.inst != End && FragmentOk(x) &&
    (x.inst == PathEle ==> x.close > i) &&
    (x.inst == Set ==>
      x.close > i && a[x.close].inst == SetEnd &&
      forall k :: i < k < x.close ==> IsMember(a[k].inst))
  }

  predicate Wf(a: seq<RaptorAsm>) {
    |a| >= 1 && a[|a| - 1].inst == End &&
    forall i :: 0 <= i < |a| - 1 ==> LocalOk(a, i)
  }

  lemma {:induction false} ItemsLocal(a: seq<RaptorAsm>, lo: nat, hi: nat)
    requires lo <= hi < |a| && Items(a, lo, hi)
    ensures forall i :: lo <= i < hi ==> LocalOk(a, i)
    decreases hi - lo, 2
  {
    if lo < hi {
      var c := a[lo].close;
      ItemLocal(a, lo, c);
      ItemsLocal(a, c + 1, hi);
    }
  }

  lemma {:induction false} ItemLocal(a: seq<RaptorAsm>, lo: nat, c: nat)
    requires lo <= c < |a| - 1 && Item(a, lo, c)
    ensures forall i :: lo <= i <= c ==> LocalOk(a, i)
    decreases c - lo + 1, 1
  {
    var x := a[lo];
    if x.inst == Group || x.inst == Hook {
      BlockLocal(a, lo + 1, c);
    }
  }

  lemma {:induction false} BlockLocal(a: seq<RaptorAsm>, lo: nat, hi: nat)
    requires lo + 2 <= hi < |a| && Block(a, lo, hi)
    ensures forall i :: lo <= i < hi ==> LocalOk(a, i)
    decreases hi - lo, 0
  {
    ElesLocal(a, lo + 1, hi - 1);
  }

  lemma {:induction false} ElesLocal(a: seq<RaptorAsm>, k: nat, h: nat)
    requires k <= h < |a| - 1 && Eles(a, k, h)
    ensures forall i :: k <= i < h ==> LocalOk(a, i)
    decreases h - k, 2
  {
    if k < h {
      var c := a[k].close;
      ItemsLocal(a, k + 1, c);
      ElesLocal(a, c, h);
    }
  }

  /** A compiled arena satisfies every local condition the interpreter needs,
      and End occurs exactly once, at the last index. */
  lemma ArenaWf(a: seq<RaptorAsm>)
    requires Arena(a)
    ensures Wf(a)
    ensures forall i :: 0 <= i < |a| ==> (a[i].inst == End <==> i == |a| - 1)
  {
    BlockLocal(a, 0, |a| - 1);
    forall i | 0 <= i < |a| - 1 ensures a[i].inst != End {
      assert LocalOk(a, i);
    }
  }

  // ---------------------------------------------------------------------
  // Frame lemmas: the grammar reads only the indices inside its range.

  predicate Agree(a: seq<RaptorAsm>, b: seq<RaptorAsm>, lo: nat, hi: nat) {
    hi <= |a| && hi <= |b| && forall k :: lo <= k < hi ==> a[k] == b[k]
  }

  lemma {:induction false} ItemsFrame(a: seq<RaptorAsm>, b: seq<RaptorAsm>, lo: nat, hi: nat)
    requires lo <= hi && Agree(a, b, lo, hi) && Items(a, lo, hi)
    ensures Items(b, lo, hi)
    decreases hi - lo, 2
  {
    if lo < hi {
      var c := a[lo].close;
      ItemFrame(a, b, lo, c);
      ItemsFrame(a, b, c + 1, hi);
    }
  }

  lemma {:induction false} ItemFrame(a: seq<RaptorAsm>, b: seq<RaptorAsm>, lo: nat, c: nat)
    requires lo <= c && Agree(a, b, lo, c + 1) && Item(a, lo, c)
    ensures Item(b, lo, c)
    decreases c - lo + 1, 1
  {
    var x := a[lo];
    if x.inst == Group || x.inst == Hook {
      BlockFrame(a, b, lo + 1, c);
    }
  }

  lemma {:induction false} BlockFrame(a: seq<RaptorAsm>, b: seq<RaptorAsm>, lo: nat, hi: nat)
    requires lo + 2 <= hi && Agree(a, b, lo, hi) && Block(a, lo, hi)
    ensures Block(b, lo, hi)
    decreases hi - lo, 0
  {
    ElesFrame(a, b, lo + 1, hi - 1);
  }

  lemma {:induction false} ElesFrame(a: seq<RaptorAsm>, b: seq<RaptorAsm>, k: nat, h: nat)
    requires k <= h && Agree(a, b, k, h) && Eles(a, k, h)
    ensures Eles(b, k, h)
    decreases h - k, 2
  {
    if k < h {
      var c := a[k].close;
      ItemsFrame(a, b, k + 1, c);
      ElesFrame(a, b, c, h);
    }
  }

  // ---------------------------------------------------------------------
  // Growing the grammar at its right end, as the compiler does.

  /** One more item after a run of items. */
  lemma {:induction false} ItemsSnoc(a: seq<RaptorAsm>, lo: nat, m: nat, c: nat)
    requires lo <= m <= c < |a| && Items(a, lo, m) && Item(a, m, c)
    ensures Items(a, lo, c + 1)
    decreases m - lo
  {
    if lo < m {
      ItemsSnoc(a, a[lo].close + 1, m, c);
    }
  }

  /** Two runs of items side by side are one run. */
  lemma {:induction false} ItemsConcat(a: seq<RaptorAsm>, lo: nat, m: nat, hi: nat)
    requires lo <= m <= hi <= |a| && Items(a, lo, m) && Items(a, m, hi)
    ensures Items(a, lo, hi)
    decreases m - lo
  {
    if lo < m {
      ItemsConcat(a, a[lo].close + 1, m, hi);
    }
  }

  /** One more alternative after a chain of alternatives. */
  lemma {:induction false} ElesSnoc(a: seq<RaptorAsm>, k: nat, t: nat, h: nat)
    requires k <= t < h <= |a| && Eles(a, k, t)
    requires a[t].inst == PathEle && a[t].close == h && Items(a, t + 1, h)
    ensures Eles(a, k, h)
    decreases t - k
  {
    if k < t {
      ElesSnoc(a, a[k].close, t, h);
    }
  }

  /** A group or hook: its opener linked to a closer placed right after
      its path block. */
  lemma BracketItems(a: seq<RaptorAsm>, b: seq<RaptorAsm>, ti: nat)
    requires ti + 3 <= |a| && |b| == |a| + 1 && Block(a, ti + 1, |a|) && Agree(a, b, ti + 1, |a|)
    requires b[ti].inst == Group || b[ti].inst == Hook
    requires b[ti].close == |a| && b[|a|].close == |a|
    requires b[|a|].inst == (if b[ti].inst == Group then GroupEnd else HookEnd)
    ensures Items(b, ti, |b|)
  {
    BlockFrame(a, b, ti + 1, |a|);
    assert Item(b, ti, |a|);
  }

  /** Appending items after a prefix that held items. */
  lemma ItemsGrow(a: seq<RaptorAsm>, b: seq<RaptorAsm>, lo: nat)
    requires lo <= |a| <= |b| && b[..|a|] == a && Items(a, lo, |a|) && Items(b, |a|, |b|)
    ensures Items(b, lo, |b|)
  {
    assert Agree(a, b, lo, |a|);
    ItemsFrame(a, b, lo, |a|);
    ItemsConcat(b, lo, |a|, |b|);
  }

  /** Growing an arena keeps every prefix of what was there. */
  lemma PrefixKept(a: seq<RaptorAsm>, b: seq<RaptorAsm>, n: nat)
    requires n <= |a| <= |b| && b[..|a|] == a
    ensures b[..n] == a[..n] && (n < |a| ==> b[n] == a[n])
  {
    assert n < |a| ==> b[n] == b[..|a|][n];
    assert forall i :: 0 <= i < n ==> b[..n][i] == b[..|a|][i];
  }

  /** Appending one more alternative after a prefix that held a chain. */
  lemma ElesGrow(a: seq<RaptorAsm>, b: seq<RaptorAsm>, k: nat)
    requires k <= |a| < |b| && b[..|a|] == a && Eles(a, k, |a|)
    requires b[|a|].inst == PathEle && b[|a|].close == |b| && Items(b, |a| + 1, |b|)
    ensures Eles(b, k, |b|)
  {
    assert Agree(a, b, k, |a|);
    ElesFrame(a, b, k, |a|);
    ElesSnoc(b, k, |a|, |b|);
  }

  /** The chain links every alternative to the next alternative or to the
      PathEnd of its block. */
  lemma {:induction false} ElesLinks(a: seq<RaptorAsm>, k: nat, h: nat)
    requires k <= h < |a| && Eles(a, k, h) && a[h].inst == PathEnd
    ensures k < h ==> a[k].inst == PathEle && k < a[k].close <= h &&
                      (a[a[k].close].inst == PathEle || a[k].close == h)
    decreases h - k
  {
  }
}
