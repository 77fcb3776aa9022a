/** The single-emoji recogniser (internal/emoji/emoji.go) against the grammar it
    decides: section 1.4.9 of UTS #51, narrowed to sequences that present as emoji. */
module Emoji {
  type rune = r: int | 0 <= r < 0x110000

  const ZWJ: rune := 0x200D
  const VS16: rune := 0xFE0F
  const KEYCAP: rune := 0x20E3
  const TAG_BEGIN: rune := 0xE0020
  const TAG_END: rune := 0xE007E
  const TAG_TERM: rune := 0xE007F
  const RI_FIRST: rune := 0x1F1E6
  const RI_LAST: rune := 0x1F1FF
  const BLACK_FLAG: rune := 0x1F3F4
  const MAX_BYTES := 64
  const MAX_RUNES := 24

  /** The property tables of internal/emoji/tables.go, as predicates. The
      modifier table is the single range U+1F3FB to U+1F3FF. */
  datatype Tables = Tables(emoji: rune -> bool, presentation: rune -> bool, modifierBase: rune -> bool)

  predicate IsRI(r: rune) { RI_FIRST <= r <= RI_LAST }
  predicate IsModifier(r: rune) { 0x1F3FB <= r <= 0x1F3FF }
  predicate IsTag(r: rune) { TAG_BEGIN <= r <= TAG_END }

  function RuneBytes(r: rune): nat {
    if r < 0x80 then 1 else if r < 0x800 then 2 else if r < 0x10000 then 3 else 4
  }

  /** Length in bytes of the UTF-8 encoding. */
  function Utf8Length(s: seq<rune>): nat {
    if s == [] then 0 else RuneBytes(s[0]) + Utf8Length(s[1..])
  }

  // ---- the grammar ----

  /** What may follow the base, making the element present as emoji:
      a modifier on a modifier base, U+FE0F with an optional keycap, or on the
      black flag a terminated run of tags. */
  predicate Modification(t: Tables, base: rune, m: seq<rune>) {
    || (|m| == 1 && IsModifier(m[0]) && t.modifierBase(base))
    || m == [VS16]
    || m == [VS16, KEYCAP]
    || (base == BLACK_FLAG && |m| >= 2 && m[|m| - 1] == TAG_TERM && forall i :: 0 <= i < |m| - 1 ==> IsTag(m[i]))
  }

  predicate Element(t: Tables, e: seq<rune>) {
    |e| > 0 && t.emoji(e[0]) && !IsRI(e[0]) &&
    (Modification(t, e[0], e[1..]) || (|e| == 1 && t.presentation(e[0])))
  }

  /** Elements joined by ZWJ. */
  function Join(es: seq<seq<rune>>): seq<rune>
    requires es != []
  {
    if |es| == 1 then es[0] else es[0] + [ZWJ] + Join(es[1..])
  }

  ghost predicate Joined(t: Tables, s: seq<rune>) {
    exists es: seq<seq<rune>> :: es != [] && (forall e :: e in es ==> Element(t, e)) && s == Join(es)
  }

  ghost predicate PossibleEmoji(t: Tables, s: seq<rune>) {
    Utf8Length(s) <= MAX_BYTES && |s| <= MAX_RUNES &&
    ((|s| == 2 && IsRI(s[0]) && IsRI(s[1])) || Joined(t, s))
  }

  // ---- the scanner ----

  /** How many tags s has from position i on. */
  function TagRun(s: seq<rune>, i: nat): (n: nat)
    requires i <= |s|
    ensures i + n <= |s|
    ensures forall k :: i <= k < i + n ==> IsTag(s[k])
    ensures i + n < |s| ==> !IsTag(s[i + n])
    decreases |s| - i
  {
    if i < |s| && IsTag(s[i]) then 1 + TagRun(s, i + 1) else 0
  }

  /** The length of the element the scanner takes off the front; 0 for none. */
  function Take(t: Tables, s: seq<rune>): (n: nat)
    ensures n <= |s|
  {
    if s == [] || !t.emoji(s[0]) || IsRI(s[0]) then 0
    else if |s| > 1 && IsModifier(s[1]) then
      if t.modifierBase(s[0]) then 2 else 0
    else if |s| > 1 && s[1] == VS16 then
      if |s| > 2 && s[2] == KEYCAP then 3 else 2
    else if |s| > 1 && IsTag(s[1]) then
      var n := TagRun(s, 1);
      if s[0] == BLACK_FLAG && 1 + n < |s| && s[1 + n] == TAG_TERM then n + 2 else 0
    else if t.presentation(s[0]) then 1 else 0
  }

  /** zwjElement: the index and flag the source advances. A zero length is
      returned when the element is refused. */
  method ZwjElement(t: Tables, s: seq<rune>) returns (n: nat)
    ensures n == Take(t, s)
  {
    if |s| == 0 || !t.emoji(s[0]) || IsRI(s[0]) { return 0; }
    var base := s[0];
    var presents := t.presentation(base);
    var i := 1;
    if i < |s| {
      var r := s[i];
      if IsModifier(r) {
        if !t.modifierBase(base) { return 0; }
        i := i + 1;
        presents := true;
      } else if r == VS16 {
        i := i + 1;
        presents := true;
        if i < |s| && s[i] == KEYCAP { i := i + 1; }
      } else if IsTag(r) {
        if base != BLACK_FLAG { return 0; }
        while i < |s| && IsTag(s[i])
          invariant 1 <= i <= |s| && 1 + TagRun(s, 1) == i + TagRun(s, i)
        {
          i := i + 1;
        }
        if i >= |s| || s[i] != TAG_TERM { return 0; }
        i := i + 1;
        presents := true;
      }
    }
    n := if presents then i else 0;
  }

  /** What is taken is an element. */
  lemma TakeIsElement(t: Tables, s: seq<rune>)
    requires Take(t, s) > 0
    ensures Element(t, s[..Take(t, s)])
  {
    var n := Take(t, s);
    var e := s[..n];
    assert e[0] == s[0];
    assert forall k :: 0 <= k < n - 1 ==> e[1..][k] == s[k + 1];
    if |s| > 1 && !IsModifier(s[1]) && s[1] == VS16 {
      assert if n == 3 then e[1..] == [VS16, KEYCAP] else e[1..] == [VS16];
    }
  }

  /** Where an element ends, at the end or before a ZWJ, the scanner ends too:
      the greedy choice is the only one. */
  lemma TakeWholeElement(t: Tables, e: seq<rune>, rest: seq<rune>)
    requires Element(t, e)
    requires rest == [] || rest[0] == ZWJ
    ensures Take(t, e + rest) == |e|
  {
    var s := e + rest;
    var m := e[1..];
    assert s[0] == e[0];
    if Modification(t, e[0], m) {
      assert s[1] == m[0];
      if e[0] == BLACK_FLAG && |m| >= 2 && m[|m| - 1] == TAG_TERM && forall i :: 0 <= i < |m| - 1 ==> IsTag(m[i]) {
        var n := TagRun(s, 1);
        assert forall k :: 1 <= k < |m| ==> s[k] == m[k - 1] && IsTag(s[k]);
        assert s[|m|] == TAG_TERM;
        assert n == |m| - 1;
      } else if m == [VS16, KEYCAP] {
        assert s[2] == m[1];
      } else if m == [VS16] {
        assert |s| > 2 ==> s[2] == rest[0];
      }
    } else {
      assert |s| > 1 ==> s[1] == rest[0];
    }
  }

  /** The scanner's loop, as a function of what is left to read. */
  predicate Scan(t: Tables, s: seq<rune>)
    decreases |s|
  {
    var n := Take(t, s);
    n > 0 && (n == |s| || (s[n] == ZWJ && n + 1 < |s| && Scan(t, s[n + 1..])))
  }

  lemma {:induction false} ScanFindsElements(t: Tables, s: seq<rune>) returns (es: seq<seq<rune>>)
    requires Scan(t, s)
    ensures es != [] && (forall e :: e in es ==> Element(t, e)) && s == Join(es)
    decreases |s|
  {
    var n := Take(t, s);
    TakeIsElement(t, s);
    if n == |s| {
      es := [s];
      assert s[..n] == s;
    } else {
      var more := ScanFindsElements(t, s[n + 1..]);
      es := [s[..n]] + more;
      assert es[1..] == more;
      assert s == s[..n] + [ZWJ] + s[n + 1..];
    }
  }

  lemma {:induction false} ScanAcceptsElements(t: Tables, es: seq<seq<rune>>)
    requires es != [] && forall e :: e in es ==> Element(t, e)
    ensures Join(es) != [] && Scan(t, Join(es))
    decreases |es|
  {
    var e := es[0];
    if |es| == 1 {
      TakeWholeElement(t, e, []);
      assert e + [] == e;
    } else {
      var rest := Join(es[1..]);
      ScanAcceptsElements(t, es[1..]);
      TakeWholeElement(t, e, [ZWJ] + rest);
      var s := Join(es);
      assert s == e + ([ZWJ] + rest);
      assert s[|e| + 1..] == rest;
    }
  }

  /** The scan accepts exactly the sequences that split into elements. */
  lemma {:induction false} ScanDecides(t: Tables, s: seq<rune>)
    ensures Scan(t, s) <==> Joined(t, s)
  {
    if Scan(t, s) {
      var es := ScanFindsElements(t, s);
    }
    if Joined(t, s) {
      var es: seq<seq<rune>> :| es != [] && (forall e :: e in es ==> Element(t, e)) && s == Join(es);
      ScanAcceptsElements(t, es);
    }
  }

  /** A sequence of elements splits into them in one way only. */
  lemma {:induction false} SplitUnique(t: Tables, es: seq<seq<rune>>, fs: seq<seq<rune>>)
    requires es != [] && fs != [] && (forall e :: e in es ==> Element(t, e)) && (forall f :: f in fs ==> Element(t, f))
    requires Join(es) == Join(fs)
    ensures es == fs
    decreases |es|
  {
    var s := Join(es);
    var n := Take(t, s);
    assert n == |es[0]| && s[..n] == es[0] by { FirstTaken(t, es); }
    assert n == |fs[0]| && s[..n] == fs[0] by { FirstTaken(t, fs); }
    if |es| == 1 || |fs| == 1 {
      assert |es| == 1 <==> n == |s|;
      assert |fs| == 1 <==> n == |s|;
    } else {
      assert Join(es[1..]) == s[n + 1..] == Join(fs[1..]);
      SplitUnique(t, es[1..], fs[1..]);
      assert es == [es[0]] + es[1..] && fs == [fs[0]] + fs[1..];
    }
  }

  lemma {:induction false} FirstTaken(t: Tables, es: seq<seq<rune>>)
    requires es != [] && forall e :: e in es ==> Element(t, e)
    ensures Take(t, Join(es)) == |es[0]| && Join(es)[..|es[0]|] == es[0]
  {
    if |es| == 1 {
      TakeWholeElement(t, es[0], []);
      assert es[0] + [] == es[0];
    } else {
      TakeWholeElement(t, es[0], [ZWJ] + Join(es[1..]));
      assert Join(es) == es[0] + ([ZWJ] + Join(es[1..]));
    }
  }

  /** IsPossible on the runes of a valid UTF-8 string. */
  method IsPossible(t: Tables, s: seq<rune>) returns (ok: bool)
    ensures ok <==> PossibleEmoji(t, s)
  {
    ScanDecides(t, s);
    if |s| == 0 || Utf8Length(s) > MAX_BYTES { return false; }
    if |s| > MAX_RUNES { return false; }
    if |s| == 2 && IsRI(s[0]) && IsRI(s[1]) { return true; }
    var i := 0;
    assert s[0..] == s;
    while true
      invariant 0 <= i < |s|
      invariant Scan(t, s) <==> Scan(t, s[i..])
      decreases |s| - i
    {
      var n := ZwjElement(t, s[i..]);
      if n == 0 { return false; }
      ghost var left := s[i..];
      i := i + n;
      if i == |s| { return true; }
      assert left[n] == s[i];
      if s[i] != ZWJ { return false; }
      i := i + 1;
      if i == |s| { return false; }
      assert left[n + 1..] == s[i..];
    }
  }
}
