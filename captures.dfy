/** Reading the capture slots a match leaves behind: the text of a slot,
    its offset and length, replacing every slot of one id, and expanding a
    template. Slots are numbered from 1; only those below the slot counter
    `n` (the source's catchIndex) are committed. */
module Captures {
  import opened CharUtils
  import opened Asm

  /** Committed slots are ordered pairs of non-negative offsets. */
  predicate SlotsOk(cs: seq<CatchInfo>, n: int) {
    forall k :: 1 <= k < n && k < |cs| ==> 0 <= cs[k].init <= cs[k].end
  }

  /** Every committed slot carries a capture number of at least 1 and at
      most its own position: each attempt numbers its captures 1, 2, ... */
  predicate IdsOk(cs: seq<CatchInfo>, n: int) {
    forall k :: 1 <= k < n && k < |cs| ==> 1 <= cs[k].id <= k
  }

  /** The slots one attempt has opened, from c0 on, are numbered 1, 2, ...
      in the order they were opened. */
  predicate IdsFrom(cs: seq<CatchInfo>, c0: int, n: int) {
    forall k :: c0 <= k < n && 0 <= k < |cs| ==> cs[k].id == k - c0 + 1
  }

  predicate Committed(cs: seq<CatchInfo>, n: int, index: int) {
    1 <= index < n && index < |cs|
  }

  /** The text of a slot; empty for a slot that is not committed or that
      does not lie inside the text. */
  function CatchText(txt: Bytes, cs: seq<CatchInfo>, n: int, index: int): Bytes {
    if !Committed(cs, n, index) then []
    else if 0 <= cs[index].init <= cs[index].end <= |txt| then txt[cs[index].init..cs[index].end]
    else []
  }

  /** The offset of a slot in the text, 0 for a slot that is not committed. */
  function CatchPos(cs: seq<CatchInfo>, n: int, index: int): int {
    if !Committed(cs, n, index) then 0 else cs[index].init
  }

  /** The length of a slot, 0 for a slot that is not committed. */
  function CatchLen(cs: seq<CatchInfo>, n: int, index: int): int {
    if !Committed(cs, n, index) then 0 else cs[index].end - cs[index].init
  }

  /** Outside the committed range every reader answers empty; inside it the
      text of a slot is the piece of the text its offset and length name. */
  lemma CatchReaders(txt: Bytes, cs: seq<CatchInfo>, n: int, index: int)
    requires n <= |cs| && SlotsOk(cs, n)
    ensures !(1 <= index < n) ==>
      CatchText(txt, cs, n, index) == [] && CatchPos(cs, n, index) == 0 && CatchLen(cs, n, index) == 0
    ensures 1 <= index < n ==> CatchLen(cs, n, index) >= 0 && CatchPos(cs, n, index) >= 0
    ensures 1 <= index < n && cs[index].end <= |txt| ==>
      |CatchText(txt, cs, n, index)| == CatchLen(cs, n, index) &&
      CatchText(txt, cs, n, index) ==
        txt[CatchPos(cs, n, index)..CatchPos(cs, n, index) + CatchLen(cs, n, index)]
  {
  }

  // ---------------------------------------------------------------------
  // The newest slot of an id.

  /** Searches the slots k, k-1, ..., 1 for id; |cs| when none has it. */
  function LastIdFrom(cs: seq<CatchInfo>, k: int, id: int): (r: int)
    requires k < |cs|
    ensures r == |cs| || (1 <= r <= k && cs[r].id == id)
    decreases k
  {
    if k <= 0 then |cs|
    else if cs[k].id == id then k
    else LastIdFrom(cs, k - 1, id)
  }

  /** The search finds the highest slot with the id, and reports none only
      when no slot 1..k has it. */
  lemma {:induction false} LastIdFromIsLast(cs: seq<CatchInfo>, k: int, id: int)
    requires k < |cs|
    ensures LastIdFrom(cs, k, id) == |cs| <==> forall j :: 1 <= j <= k ==> cs[j].id != id
    ensures LastIdFrom(cs, k, id) < |cs| ==>
      forall j :: LastIdFrom(cs, k, id) < j <= k ==> cs[j].id != id
    decreases k
  {
    if k > 0 && cs[k].id != id {
      LastIdFromIsLast(cs, k - 1, id);
    }
  }

  // ---------------------------------------------------------------------
  // Replacing the slots of one id.

  /** The number of slots with the id among k..m-1. */
  function CountIn(cs: seq<CatchInfo>, k: int, m: int, id: int): nat
    requires m <= |cs|
    decreases m - k
  {
    if m <= k || m <= 0 then 0
    else CountIn(cs, k, m - 1, id) + (if cs[m - 1].id == id then 1 else 0)
  }

  /** The total length of the slots with the id among k..m-1. */
  function LensIn(cs: seq<CatchInfo>, k: int, m: int, id: int): int
    requires m <= |cs|
    decreases m - k
  {
    if m <= k || m <= 0 then 0
    else LensIn(cs, k, m - 1, id) + (if cs[m - 1].id == id then cs[m - 1].end - cs[m - 1].init else 0)
  }

  /** Both sums taken from their first slot instead of their last. */
  lemma {:induction false} SumsFront(cs: seq<CatchInfo>, k: int, m: int, id: int)
    requires 0 <= k < m <= |cs|
    ensures CountIn(cs, k, m, id) == (if cs[k].id == id then 1 else 0) + CountIn(cs, k + 1, m, id)
    ensures LensIn(cs, k, m, id) ==
      (if cs[k].id == id then cs[k].end - cs[k].init else 0) + LensIn(cs, k + 1, m, id)
    decreases m - k
  {
    if k + 1 < m {
      SumsFront(cs, k, m - 1, id);
    }
  }

  /** Slots of the id whose start the replacement can read: the source
      slices the text up to each such start. */
  predicate StartsInText(txt: Bytes, cs: seq<CatchInfo>, n: int, id: int)
    requires n <= |cs|
  {
    forall k :: 1 <= k < n && cs[k].id == id ==> 0 <= cs[k].init <= |txt|
  }

  /** The replacement from slot k on, resuming the text at `last`: the text
      up to each slot of the id (from the slot's start when `last` is past
      it), the replacement, and the text after the final slot. */
  function SpliceFrom(txt: Bytes, cs: seq<CatchInfo>, k: int, n: int, id: int, rpl: Bytes, last: int): Bytes
    requires 1 <= k && n <= |cs| && 0 <= last && SlotsOk(cs, n) && StartsInText(txt, cs, n, id)
    decreases n - k
  {
    if k >= n then (if last < |txt| then txt[last..] else [])
    else if cs[k].id == id then
      var from := if last > cs[k].init then cs[k].init else last;
      txt[from..cs[k].init] + rpl + SpliceFrom(txt, cs, k + 1, n, id, rpl, cs[k].end)
    else SpliceFrom(txt, cs, k + 1, n, id, rpl, last)
  }

  /** The straightforward replacement the source keeps as a reference,
      building the result by concatenation. */
  function OldRplCatch(txt: Bytes, cs: seq<CatchInfo>, n: int, id: int, rpl: Bytes): Bytes
    requires n <= |cs| && SlotsOk(cs, n) && StartsInText(txt, cs, n, id)
  {
    SpliceFrom(txt, cs, 1, n, id, rpl, 0)
  }

  /** The size of the buffer the replacement is written into: the text less
      the replaced slots plus one replacement per slot; the slots are not
      subtracted in char-stride mode, where they may overlap. */
  function RplSize(txt: Bytes, cs: seq<CatchInfo>, n: int, id: int, rpl: Bytes, byChar: bool): int
    requires n <= |cs|
  {
    |txt| - (if byChar then 0 else LensIn(cs, 1, n, id)) + CountIn(cs, 1, n, id) * |rpl|
  }

  /** The first cap bytes of s. */
  function Truncate(s: Bytes, cap: nat): (r: Bytes)
    ensures |r| == if cap < |s| then cap else |s|
    ensures r <= s
  {
    if cap < |s| then s[..cap] else s
  }

  /** Writing more into a buffer of cap bytes keeps what was there and adds
      as much of the new bytes as still fits. */
  lemma TruncateAppend(acc: Bytes, src: Bytes, cap: nat)
    ensures var g := |Truncate(acc, cap)|;
      var m := if cap - g < |src| then cap - g else |src|;
      Truncate(acc + src, cap) == Truncate(acc, cap) + src[..m]
  {
    if cap < |acc| {
      assert (acc + src)[..cap] == acc[..cap];
    } else if cap < |acc| + |src| {
      assert (acc + src)[..cap] == acc + src[..cap - |acc|];
    } else {
      assert src[..|src|] == src;
    }
  }

  /** With no slot of the id the reference gives back the text. */
  lemma {:induction false} SpliceNone(txt: Bytes, cs: seq<CatchInfo>, k: int, n: int, id: int, rpl: Bytes)
    requires 1 <= k && n <= |cs| && SlotsOk(cs, n) && StartsInText(txt, cs, n, id)
    requires forall j :: k <= j < n ==> cs[j].id != id
    ensures SpliceFrom(txt, cs, k, n, id, rpl, 0) == txt
    decreases n - k
  {
    if k < n {
      SpliceNone(txt, cs, k + 1, n, id, rpl);
    }
  }

  /** Slots of the id that follow each other without overlapping, all inside
      the text and at or after `last`. */
  predicate Ordered(txt: Bytes, cs: seq<CatchInfo>, k: int, n: int, id: int, last: int)
    requires 0 <= k && n <= |cs|
  {
    (forall j :: k <= j < n && cs[j].id == id ==> last <= cs[j].init <= cs[j].end <= |txt|) &&
    (forall i, j :: k <= i < j < n && cs[i].id == id && cs[j].id == id ==> cs[i].end <= cs[j].init)
  }

  /** For ordered slots the reference has exactly the length of the
      source's buffer. */
  lemma {:induction false} SpliceLength(txt: Bytes, cs: seq<CatchInfo>, k: int, n: int, id: int, rpl: Bytes, last: int)
    requires 1 <= k && n <= |cs| && 0 <= last <= |txt| && SlotsOk(cs, n) && StartsInText(txt, cs, n, id)
    requires Ordered(txt, cs, k, n, id, last)
    ensures |SpliceFrom(txt, cs, k, n, id, rpl, last)| ==
      |txt| - last - LensIn(cs, k, n, id) + CountIn(cs, k, n, id) * |rpl|
    decreases n - k
  {
    if k < n {
      SumsFront(cs, k, n, id);
      if cs[k].id == id {
        OrderedNext(txt, cs, k, n, id, last);
        SpliceLength(txt, cs, k + 1, n, id, rpl, cs[k].end);
        assert (1 + CountIn(cs, k + 1, n, id)) * |rpl| == |rpl| + CountIn(cs, k + 1, n, id) * |rpl|;
      } else {
        SpliceLength(txt, cs, k + 1, n, id, rpl, last);
      }
    }
  }

  /** After a slot of the id the later slots are ordered from its end on. */
  lemma OrderedNext(txt: Bytes, cs: seq<CatchInfo>, k: int, n: int, id: int, last: int)
    requires 0 <= k < n <= |cs| && cs[k].id == id && Ordered(txt, cs, k, n, id, last)
    ensures Ordered(txt, cs, k + 1, n, id, cs[k].end)
  {
  }

  /** The replaced lengths of well-formed slots are never negative. */
  lemma {:induction false} LensNonNegative(cs: seq<CatchInfo>, m: int, id: int)
    requires m <= |cs| && SlotsOk(cs, m)
    ensures LensIn(cs, 1, m, id) >= 0
    decreases m
  {
    if m > 1 {
      LensNonNegative(cs, m - 1, id);
    }
  }

  /** For slots that follow each other inside the text, the buffer is just
      large enough (and in char-stride mode at least large enough) for the
      reference result, so the buffered replacement gives that result. */
  lemma RplFitsBuffer(txt: Bytes, cs: seq<CatchInfo>, n: int, id: int, rpl: Bytes, byChar: bool)
    requires n <= |cs| && SlotsOk(cs, n) && StartsInText(txt, cs, n, id) && Ordered(txt, cs, 1, n, id, 0)
    ensures !byChar ==> RplSize(txt, cs, n, id, rpl, byChar) == |OldRplCatch(txt, cs, n, id, rpl)|
    ensures RplSize(txt, cs, n, id, rpl, byChar) >= |OldRplCatch(txt, cs, n, id, rpl)|
    ensures Truncate(OldRplCatch(txt, cs, n, id, rpl), RplSize(txt, cs, n, id, rpl, byChar)) ==
      OldRplCatch(txt, cs, n, id, rpl)
  {
    SpliceLength(txt, cs, 1, n, id, rpl, 0);
    LensNonNegative(cs, n, id);
  }

  /** Slots of the id from k on whose starts never go back (ordered slots
      have this, and so do overlapping ones that only move forward). */
  predicate StartsRising(cs: seq<CatchInfo>, k: int, n: int, id: int)
    requires 0 <= k && n <= |cs|
  {
    forall i, j :: k <= i < j < n && cs[i].id == id && cs[j].id == id ==> cs[i].init <= cs[j].init
  }

  /** The start of the first slot of the id from k on; the text length when
      there is none. */
  function NextStart(txt: Bytes, cs: seq<CatchInfo>, k: int, n: int, id: int): int
    requires 0 <= k && n <= |cs|
    decreases n - k
  {
    if k >= n then |txt|
    else if cs[k].id == id then cs[k].init
    else NextStart(txt, cs, k + 1, n, id)
  }

  /** A bound below every later start of the id, and below the text length,
      is below the next start. */
  lemma {:induction false} NextStartAtLeast(txt: Bytes, cs: seq<CatchInfo>, k: int, n: int, id: int, b: int)
    requires 0 <= k && n <= |cs| && b <= |txt|
    requires forall j :: k <= j < n && cs[j].id == id ==> b <= cs[j].init
    ensures b <= NextStart(txt, cs, k, n, id)
    decreases n - k
  {
    if k < n && cs[k].id != id {
      NextStartAtLeast(txt, cs, k + 1, n, id, b);
    }
  }

  /** For slots whose starts never go back, the reference from slot k on is
      no longer than the text from where it resumes (`last`, or the next
      start when that comes first) plus one replacement per slot. */
  lemma {:induction false} SpliceBound(txt: Bytes, cs: seq<CatchInfo>, k: int, n: int, id: int, rpl: Bytes, last: int)
    requires 1 <= k && n <= |cs| && 0 <= last && SlotsOk(cs, n) && StartsInText(txt, cs, n, id)
    requires StartsRising(cs, k, n, id)
    ensures var from := if last < NextStart(txt, cs, k, n, id) then last else NextStart(txt, cs, k, n, id);
      |SpliceFrom(txt, cs, k, n, id, rpl, last)| <= |txt| - from + CountIn(cs, k, n, id) * |rpl|
    decreases n - k
  {
    if k < n {
      SumsFront(cs, k, n, id);
      if cs[k].id == id {
        var from := if last > cs[k].init then cs[k].init else last;
        var rest := SpliceFrom(txt, cs, k + 1, n, id, rpl, cs[k].end);
        assert SpliceFrom(txt, cs, k, n, id, rpl, last) == txt[from..cs[k].init] + rpl + rest;
        SpliceBound(txt, cs, k + 1, n, id, rpl, cs[k].end);
        NextStartAtLeast(txt, cs, k + 1, n, id, cs[k].init);
        assert (1 + CountIn(cs, k + 1, n, id)) * |rpl| == |rpl| + CountIn(cs, k + 1, n, id) * |rpl|;
      } else {
        SpliceBound(txt, cs, k + 1, n, id, rpl, last);
      }
    }
  }

  /** In char-stride mode, where the slots of the id may overlap, the buffer
      still holds the whole reference result as long as their starts never
      go back. */
  lemma RplFitsBufferRising(txt: Bytes, cs: seq<CatchInfo>, n: int, id: int, rpl: Bytes)
    requires n <= |cs| && SlotsOk(cs, n) && StartsInText(txt, cs, n, id) && StartsRising(cs, 1, n, id)
    ensures RplSize(txt, cs, n, id, rpl, true) >= |OldRplCatch(txt, cs, n, id, rpl)|
    ensures Truncate(OldRplCatch(txt, cs, n, id, rpl), RplSize(txt, cs, n, id, rpl, true)) ==
      OldRplCatch(txt, cs, n, id, rpl)
  {
    SpliceBound(txt, cs, 1, n, id, rpl, 0);
    NextStartAtLeast(txt, cs, 1, n, id, 0);
  }

  /** Where the starts of the id go back, the char-stride buffer can be too
      short: on the text "aaaab" with slots [4,5], [2,2], [3,3], [4,5] of
      id 1 and the replacement "X", the reference result "aaaaXXaXaX" has
      ten bytes and the buffer nine. */
  lemma RplBufferShort()
    ensures var txt: Bytes := [0x61, 0x61, 0x61, 0x61, 0x62];
      var cs := [CatchInfo(0, 0, 0), CatchInfo(4, 5, 1), CatchInfo(2, 2, 1), CatchInfo(3, 3, 1), CatchInfo(4, 5, 1)];
      StartsInText(txt, cs, 5, 1) && SlotsOk(cs, 5) &&
      RplSize(txt, cs, 5, 1, [0x58], true) == 9 && |OldRplCatch(txt, cs, 5, 1, [0x58])| == 10
  {
    var txt: Bytes := [0x61, 0x61, 0x61, 0x61, 0x62];
    var cs := [CatchInfo(0, 0, 0), CatchInfo(4, 5, 1), CatchInfo(2, 2, 1), CatchInfo(3, 3, 1), CatchInfo(4, 5, 1)];
    var x: Bytes := [0x58];
    assert SpliceFrom(txt, cs, 5, 5, 1, x, 5) == [];
    assert SpliceFrom(txt, cs, 4, 5, 1, x, 3) == txt[3..4] + x;
    assert SpliceFrom(txt, cs, 3, 5, 1, x, 2) == txt[2..3] + x + txt[3..4] + x;
    assert SpliceFrom(txt, cs, 2, 5, 1, x, 5) == x + txt[2..3] + x + txt[3..4] + x;
    assert SpliceFrom(txt, cs, 1, 5, 1, x, 0) == txt[0..4] + x + x + txt[2..3] + x + txt[3..4] + x;
    assert CountIn(cs, 1, 5, 1) == 4;
  }

  // ---------------------------------------------------------------------
  // Templates.

  /** Template expansion: `##` is a `#`; `#` and the digits after it stand
      for the text of the slot they number (with no digits, slot 0, which is
      always empty); every other byte stands for itself. */
  function Expand(txt: Bytes, cs: seq<CatchInfo>, n: int, p: Bytes): Bytes
    decreases |p|
  {
    if |p| == 0 then []
    else if p[0] != Hash then [p[0]] + Expand(txt, cs, n, p[1..])
    else if |p| > 1 && p[1] == Hash then [Hash] + Expand(txt, cs, n, p[2..])
    else
      var d := p[1..];
      CatchText(txt, cs, n, AToI(d)) + Expand(txt, cs, n, d[CountCharDigits(d)..])
  }

  /** Expansion of the template from position i on, one piece at a time. */
  lemma ExpandStep(txt: Bytes, cs: seq<CatchInfo>, n: int, p: Bytes, i: nat)
    requires i < |p|
    ensures p[i] != Hash ==> Expand(txt, cs, n, p[i..]) == [p[i]] + Expand(txt, cs, n, p[i + 1..])
    ensures p[i] == Hash && i + 1 < |p| && p[i + 1] == Hash ==>
      Expand(txt, cs, n, p[i..]) == [Hash] + Expand(txt, cs, n, p[i + 2..])
    ensures p[i] == Hash && !(i + 1 < |p| && p[i + 1] == Hash) ==>
      Expand(txt, cs, n, p[i..]) ==
        CatchText(txt, cs, n, AToI(p[i + 1..])) + Expand(txt, cs, n, p[i + 1 + CountCharDigits(p[i + 1..])..])
  {
    assert p[i..][1..] == p[i + 1..];
    if i + 1 < |p| {
      assert p[i..][2..] == p[i + 2..];
    }
    var d := p[i + 1..];
    assert d[CountCharDigits(d)..] == p[i + 1 + CountCharDigits(d)..];
  }

  /** A template without `#` expands to itself. */
  lemma {:induction false} ExpandPlain(txt: Bytes, cs: seq<CatchInfo>, n: int, p: Bytes)
    requires Hash !in p
    ensures Expand(txt, cs, n, p) == p
    decreases |p|
  {
    if |p| > 0 {
      ExpandPlain(txt, cs, n, p[1..]);
    }
  }

  /** Expansion works piece by piece: a byte other than `#` is copied, `##`
      gives `#`, and `#` with digits gives the slot those digits number. */
  lemma ExpandPieces(txt: Bytes, cs: seq<CatchInfo>, n: int, c: bv8, ds: Bytes, q: Bytes)
    requires forall i :: 0 <= i < |ds| ==> IsDigit(ds[i])
    requires |q| == 0 || (q[0] != Hash && !IsDigit(q[0]))
    ensures c != Hash ==> Expand(txt, cs, n, [c] + q) == [c] + Expand(txt, cs, n, q)
    ensures Expand(txt, cs, n, [Hash, Hash] + q) == [Hash] + Expand(txt, cs, n, q)
    ensures Expand(txt, cs, n, [Hash] + ds + q) == CatchText(txt, cs, n, DecimalValue(ds)) + Expand(txt, cs, n, q)
  {
    assert ([c] + q)[1..] == q;
    assert ([Hash, Hash] + q)[2..] == q;
    var p := [Hash] + ds + q;
    assert p[1..] == ds + q;
    CountStops(ds, q);
    AToIStops(ds, q);
    assert (ds + q)[|ds|..] == q;
    if |ds| == 0 {
      assert |p| == 1 || p[1] != Hash;
    }
  }
}
