/** The single-atom matchers of the interpreter: a literal, a range, an
    escape, a set and a back-reference, each tried against the remaining
    text. Each reports whether it matched and how many bytes it would
    consume (the source's `forward` out-parameter), which is defined on
    failure too because a set hands it on from member to member. */
module Matchers {
  import opened CharUtils
  import opened Asm
  import opened Captures

  datatype Step = Step(ok: bool, forward: int)

  // ---------------------------------------------------------------------
  // Literals.

  /** A literal: the text must start with it, byte for byte, or up to ASCII
      case when the fragment is case-insensitive. */
  function MatchText(rexp: ReStruct, t: Bytes): (r: Step)
    ensures r.forward == |rexp.str|
    ensures r.ok ==> |rexp.str| <= |t|
  {
    var n := |rexp.str|;
    if |t| < n then Step(false, n)
    else if rexp.mods & ModCommunism != 0 then Step(StrnEqlCommunist(t, rexp.str, n), n)
    else Step(t[..n] == rexp.str, n)
  }

  /** The literal matches exactly when it is a prefix of the text, or a
      prefix up to ASCII case under case-insensitivity. */
  lemma MatchTextPrefix(rexp: ReStruct, t: Bytes)
    ensures rexp.mods & ModCommunism == 0 ==> (MatchText(rexp, t).ok <==> rexp.str <= t)
    ensures rexp.mods & ModCommunism != 0 ==>
      (MatchText(rexp, t).ok <==>
        |rexp.str| <= |t| && forall i :: 0 <= i < |rexp.str| ==> ToLower(t[i]) == ToLower(rexp.str[i]))
  {
  }

  /** The text with every byte lower-cased. */
  function LowerAll(t: Bytes): (r: Bytes)
    ensures |r| == |t|
    ensures forall i :: 0 <= i < |t| ==> r[i] == ToLower(t[i])
  {
    seq(|t|, i requires 0 <= i < |t| => ToLower(t[i]))
  }

  /** A case-insensitive literal cannot tell the text from its lower-cased
      form. */
  lemma MatchTextFoldCase(rexp: ReStruct, t: Bytes)
    requires rexp.mods & ModCommunism != 0
    ensures MatchText(rexp, t) == MatchText(rexp, LowerAll(t))
  {
    MatchTextPrefix(rexp, t);
    MatchTextPrefix(rexp, LowerAll(t));
    forall i | 0 <= i < |t| ensures ToLower(LowerAll(t)[i]) == ToLower(t[i]) {
      ToLowerIdempotent(t[i]);
    }
  }

  // ---------------------------------------------------------------------
  // Ranges `x-y`.

  /** A range consumes one byte and matches a first byte between its two
      ends, compared after lower-casing under case-insensitivity. */
  function MatchRange(rexp: ReStruct, t: Bytes): (r: Step)
    requires |t| >= 1 && |rexp.str| >= 3
    ensures r.forward == 1
  {
    if rexp.mods & ModCommunism != 0 then
      var c := ToLower(t[0]);
      Step(c >= ToLower(rexp.str[0]) && c <= ToLower(rexp.str[2]), 1)
    else Step(t[0] >= rexp.str[0] && t[0] <= rexp.str[2], 1)
  }

  /** A case-sensitive range is the byte interval between its ends; a
      case-insensitive one cannot tell a byte from its lower-case form. */
  lemma MatchRangeMeaning(rexp: ReStruct, t: Bytes)
    requires |t| >= 1 && |rexp.str| >= 3
    ensures rexp.mods & ModCommunism == 0 ==>
      (MatchRange(rexp, t).ok <==> rexp.str[0] <= t[0] <= rexp.str[2])
    ensures rexp.mods & ModCommunism != 0 ==>
      MatchRange(rexp, t) == MatchRange(rexp, [ToLower(t[0])] + t[1..])
  {
    ToLowerIdempotent(t[0]);
  }

  // ---------------------------------------------------------------------
  // Escapes `:x`.

  /** The lower-case class letters and the ASCII class each names. */
  predicate IsClassLetter(k: bv8) {
    k == LowerA || k == LowerD || k == LowerW || k == LowerS || k == LowerB
  }

  predicate InClass(k: bv8, c: bv8)
    requires IsClassLetter(k)
  {
    if k == LowerA then IsAlpha(c)
    else if k == LowerD then IsDigit(c)
    else if k == LowerW then IsAlnum(c)
    else if k == LowerS then IsSpace(c)
    else IsBlank(c)
  }

  /** The upper-case letter of a class. */
  function Upper(k: bv8): bv8 { k - 32 }

  /** A lower-case class matches one byte in the class; an upper-case class
      matches a code point whose first byte is not in the lower-case class
      and consumes the whole code point; `:&` matches a non-ASCII code
      point; any other escaped byte matches itself. */
  function MatchMeta(rexp: ReStruct, t: Bytes): (r: Step)
    requires |t| >= 1 && |rexp.str| >= 2
    ensures r.forward == 1 || r.forward == Utf8Meter(t)
    ensures r.forward >= 0
  {
    var k := rexp.str[1];
    var c := t[0];
    if k == LowerA then Step(IsAlpha(c), 1)
    else if k == UpperA then NotClass(IsAlpha(c), t)
    else if k == LowerD then Step(IsDigit(c), 1)
    else if k == UpperD then NotClass(IsDigit(c), t)
    else if k == LowerW then Step(IsAlnum(c), 1)
    else if k == UpperW then NotClass(IsAlnum(c), t)
    else if k == LowerS then Step(IsSpace(c), 1)
    else if k == UpperS then NotClass(IsSpace(c), t)
    else if k == LowerB then Step(IsBlank(c), 1)
    else if k == UpperB then NotClass(IsBlank(c), t)
    else if k == Amp then (if c < 128 then Step(false, 1) else Step(true, Utf8Meter(t)))
    else Step(c == k, 1)
  }

  /** The negated classes: fail on one byte when the first byte is in the
      class, otherwise consume one code point. */
  function NotClass(inClass: bool, t: Bytes): (r: Step)
    ensures r.forward >= 0
  {
    if inClass then Step(false, 1) else Step(true, Utf8Meter(t))
  }

  /** Each upper-case class is the complement of its lower-case class on the
      first byte and then consumes a whole code point; the lower-case class
      consumes one byte. */
  lemma MetaUpperNegates(rexp: ReStruct, t: Bytes)
    requires |t| >= 1 && |rexp.str| >= 2 && IsClassLetter(rexp.str[1])
    ensures MatchMeta(rexp, t).forward == 1
    ensures MatchMeta(rexp, t).ok <==> InClass(rexp.str[1], t[0])
    ensures var up := rexp.(str := [rexp.str[0], Upper(rexp.str[1])]);
      (MatchMeta(up, t).ok <==> !InClass(rexp.str[1], t[0])) &&
      (MatchMeta(up, t).ok ==> MatchMeta(up, t).forward == Utf8Meter(t))
  {
  }

  /** `:&` matches exactly the non-ASCII first bytes; an escaped byte that
      names no class matches only itself. */
  lemma MetaLiteral(rexp: ReStruct, t: Bytes)
    requires |t| >= 1 && |rexp.str| >= 2
    ensures rexp.str[1] == Amp ==> (MatchMeta(rexp, t).ok <==> t[0] >= 128)
    ensures !IsClassLetter(rexp.str[1]) && !IsClassLetter(rexp.str[1] + 32) && rexp.str[1] != Amp ==>
      MatchMeta(rexp, t) == Step(t[0] == rexp.str[1], 1)
  {
  }

  // ---------------------------------------------------------------------
  // Sets.

  /** One non-literal member (a range, an escape or a code point), as the
      set matcher hands it to the single-atom dispatch. */
  function MemberStep(x: RaptorAsm, t: Bytes): (r: Step)
    requires |t| >= 1 && FragmentOk(x) && (x.inst == Rangeab || x.inst == Meta || x.inst == UTF8)
    ensures r.forward >= 0
  {
    if x.inst == Rangeab then MatchRange(x.re, t)
    else if x.inst == Meta then MatchMeta(x.re, t)
    else MatchText(x.re, t)
  }

  /** A literal member is a list of bytes, any of which may match the first
      byte; the case-insensitive lookup answers yes for every byte. */
  predicate LiteralHit(x: RaptorAsm, c: bv8) {
    if x.re.mods & ModCommunism != 0 then FindRuneCommunist(x.re.str, c)
    else Strnchr(x.re.str, c)
  }

  /** Whether one member of a set accepts the text. */
  predicate MemberOk(x: RaptorAsm, t: Bytes)
    requires |t| >= 1 && FragmentOk(x)
  {
    if x.inst == Rangeab || x.inst == Meta || x.inst == UTF8 then MemberStep(x, t).ok
    else LiteralHit(x, t[0])
  }

  /** Members of a set between k and the SetEnd at hi. */
  predicate MembersUpTo(a: seq<RaptorAsm>, k: nat, hi: nat)
    requires k <= hi < |a|
  {
    forall j :: k <= j < hi ==> IsMember(a[j].inst) && FragmentOk(a[j])
  }

  /** The set matcher from member k on, with the forward the previous member
      left behind: the first member that accepts ends the scan, and a literal
      member does not set forward. */
  function SetScan(a: seq<RaptorAsm>, k: nat, hi: nat, t: Bytes, fwd: int): (r: Step)
    requires k <= hi < |a| && |t| >= 1 && MembersUpTo(a, k, hi)
    decreases hi - k
  {
    if k == hi then Step(false, fwd)
    else
      var x := a[k];
      var s := if x.inst == Rangeab || x.inst == Meta || x.inst == UTF8 then MemberStep(x, t)
               else Step(LiteralHit(x, t[0]), fwd);
      if s.ok then s else SetScan(a, k + 1, hi, t, s.forward)
  }

  /** A set matches exactly when one of its members accepts the text. */
  lemma {:induction false} SetScanAny(a: seq<RaptorAsm>, k: nat, hi: nat, t: Bytes, fwd: int)
    requires k <= hi < |a| && |t| >= 1 && MembersUpTo(a, k, hi)
    ensures SetScan(a, k, hi, t, fwd).ok <==> exists j :: k <= j < hi && MemberOk(a[j], t)
    decreases hi - k
  {
    if k < hi {
      var x := a[k];
      var s := if x.inst == Rangeab || x.inst == Meta || x.inst == UTF8 then MemberStep(x, t)
               else Step(LiteralHit(x, t[0]), fwd);
      assert s.ok == MemberOk(x, t);
      SetScanAny(a, k + 1, hi, t, s.forward);
    }
  }

  /** The forward of a set: never negative, and a non-literal member that
      accepts reports its own. */
  lemma {:induction false} SetScanForward(a: seq<RaptorAsm>, k: nat, hi: nat, t: Bytes, fwd: int)
    requires k <= hi < |a| && |t| >= 1 && MembersUpTo(a, k, hi) && fwd >= 0
    ensures SetScan(a, k, hi, t, fwd).forward >= 0
    ensures k < hi && a[k].inst != Simple && MemberOk(a[k], t) ==>
      SetScan(a, k, hi, t, fwd) == MemberStep(a[k], t)
    decreases hi - k
  {
    if k < hi {
      var x := a[k];
      var s := if x.inst == Rangeab || x.inst == Meta || x.inst == UTF8 then MemberStep(x, t)
               else Step(LiteralHit(x, t[0]), fwd);
      if !s.ok {
        SetScanForward(a, k + 1, hi, t, s.forward);
      }
    }
  }

  /** A code point member that fails on a shorter text still sets forward to
      its own length, and a literal member after it that accepts reports that
      length: the set may consume more bytes than the text has left. */
  lemma SetForwardCarry()
    ensures var cp := ReStruct([0xC3, 0xA4], UTF8, 0, 1, 1);
      var lit := ReStruct([LowerA], Simple, 0, 1, 1);
      var a := [RaptorAsm(ZeroRe, Set, 3), RaptorAsm(cp, UTF8, 1), RaptorAsm(lit, Simple, 2),
                RaptorAsm(ZeroRe, SetEnd, 3)];
      SetScan(a, 1, 3, [LowerA], 1) == Step(true, 2)
  {
    var cp := ReStruct([0xC3, 0xA4], UTF8, 0, 1, 1);
    var lit := ReStruct([LowerA], Simple, 0, 1, 1);
    var a := [RaptorAsm(ZeroRe, Set, 3), RaptorAsm(cp, UTF8, 1), RaptorAsm(lit, Simple, 2),
              RaptorAsm(ZeroRe, SetEnd, 3)];
    assert MemberStep(a[1], [LowerA]) == Step(false, 2);
    assert Strnchr(lit.str, LowerA);
  }

  /** In a well-formed arena the instructions between a Set and its SetEnd
      are set members with well-formed texts. */
  lemma WfSetMembers(a: seq<RaptorAsm>, i: nat)
    requires Wf(a) && i < |a| - 1 && a[i].inst == Set
    ensures i < a[i].close < |a| - 1 && a[a[i].close].inst == SetEnd
    ensures MembersUpTo(a, i + 1, a[i].close)
  {
    assert LocalOk(a, i);
    forall j | i + 1 <= j < a[i].close ensures IsMember(a[j].inst) && FragmentOk(a[j]) {
      assert LocalOk(a, j);
    }
  }

  // ---------------------------------------------------------------------
  // Back-references `@n`.

  /** A back-reference to capture n: the newest committed slot with id n
      must have a non-empty text that the remaining text starts with, byte
      for byte; forward is the length of that text. */
  function BackrefStep(rexp: ReStruct, t: Bytes, txt: Bytes, cs: seq<CatchInfo>, n: int): (r: Step)
    requires |rexp.str| >= 1 && n <= |cs|
    ensures r.forward >= 0
  {
    var id := AToI(rexp.str[1..]);
    var s := CatchText(txt, cs, n, LastIdFrom(cs, n - 1, id));
    Step(s != [] && |s| <= |t| && SameFrom(s, t, 0), |s|)
  }

  /** s and t agree byte for byte from index k to the end of s. */
  predicate SameFrom(s: Bytes, t: Bytes, k: nat)
    requires k <= |s| <= |t|
    decreases |s| - k
  {
    k == |s| || (s[k] == t[k] && SameFrom(s, t, k + 1))
  }

  lemma {:induction false} SameFromPrefix(s: Bytes, t: Bytes, k: nat)
    requires k <= |s| <= |t|
    ensures SameFrom(s, t, k) <==> s[k..] == t[k..|s|]
    decreases |s| - k
  {
    if k < |s| {
      SameFromPrefix(s, t, k + 1);
      assert s[k..] == [s[k]] + s[k + 1..];
      assert t[k..|s|] == [t[k]] + t[k + 1..|s|];
    }
  }

  /** A back-reference matches exactly when the newest slot with its id is
      committed, non-empty and a prefix of the text; with no such slot it
      fails. */
  lemma BackrefMeaning(rexp: ReStruct, t: Bytes, txt: Bytes, cs: seq<CatchInfo>, n: int)
    requires |rexp.str| >= 1 && n <= |cs|
    ensures var id := AToI(rexp.str[1..]);
      var j := LastIdFrom(cs, n - 1, id);
      var s := CatchText(txt, cs, n, j);
      (BackrefStep(rexp, t, txt, cs, n).ok <==> j < |cs| && s != [] && s <= t) &&
      (j < |cs| ==> 1 <= j < n && cs[j].id == id && forall k :: j < k < n ==> cs[k].id != id) &&
      ((forall k :: 1 <= k < n ==> cs[k].id != id) ==> !BackrefStep(rexp, t, txt, cs, n).ok)
  {
    LastIdFromIsLast(cs, n - 1, AToI(rexp.str[1..]));
    var s := CatchText(txt, cs, n, LastIdFrom(cs, n - 1, AToI(rexp.str[1..])));
    if |s| <= |t| {
      SameFromPrefix(s, t, 0);
    }
  }
}
