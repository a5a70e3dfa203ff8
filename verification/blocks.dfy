/**
  FAQ block isolation, shared by both scrapers: find the first match of a
  start marker, take the text after it up to the first match of a stop
  marker (or to the end of the text when there is none), and strip it.
 */
module Blocks {
  import opened Text
  import opened Optional
  import opened Patterns

  /**
    Where the FAQ block lies in the page text: after the start-marker match
    `marker`, up to the start of the stop-marker match `stop`, if any.
   */
  datatype Block = Block(marker: Match, stop: Option<Match>) {
    function Begin(): nat {
      marker.end
    }

    function End(textLength: nat): nat {
      if stop.Some? then stop.value.start else textLength
    }
  }

  /** A pattern that begins with a literal cannot match the empty word. */
  predicate BeginsWithLiteral(p: Pattern) {
    |p| > 0 && p[0].Char?
  }

  /** The block span: the leftmost start match, then the leftmost stop match after it. */
  function FindBlock(text: string, start: Pattern, stop: Pattern): (r: Option<Block>)
    requires Separated(start) && Separated(stop)
    ensures r.None? <==> NoMatchFrom(start, text, 0)
    ensures r.Some? ==> IsLeftmostMatch(start, text, 0, r.value.marker)
    ensures r.Some? && r.value.stop.Some? ==> IsLeftmostMatch(stop, text, r.value.Begin(), r.value.stop.value)
    ensures r.Some? && r.value.stop.None? ==> NoMatchFrom(stop, text, r.value.Begin())
    ensures r.Some? ==> r.value.Begin() <= r.value.End(|text|) <= |text|
  {
    match Search(start, text, 0)
    case None => None
    case Some(m) => Some(Block(m, Search(stop, text, m.end)))
  }

  /**
    The stripped block: empty when the start marker is absent; otherwise the
    text after the leftmost start match, up to the leftmost stop match after
    it (or to the end), with its surrounding whitespace removed. No stop
    match survives inside it.
   */
  function Isolate(text: string, start: Pattern, stop: Pattern): (r: string)
    requires Separated(start) && Separated(stop) && BeginsWithLiteral(stop)
    ensures NoMatchFrom(start, text, 0) ==> r == ""
    ensures Trimmed(r)
    ensures forall m, e :: IsLeftmostMatch(start, text, 0, m) && IsLeftmostMatch(stop, text, m.end, e) ==>
      Padded(text[m.end..e.start], r)
    ensures forall m :: IsLeftmostMatch(start, text, 0, m) && NoMatchFrom(stop, text, m.end) ==>
      Padded(text[m.end..], r)
    ensures forall i, j :: 0 <= i <= j <= |r| ==> !Accepts(stop, r[i..j])
  {
    match FindBlock(text, start, stop)
    case None => ""
    case Some(b) =>
      var r := Strip(text[b.Begin()..b.End(|text|)]);
      StripPadded(text[b.Begin()..b.End(|text|)]);
      StopAbsentFromBlock(text, stop, b, r);
      BlockIsUnique(text, start, stop, b, r);
      r
  }

  /** Any leftmost start match and stop match describe the block `FindBlock` found. */
  lemma {:induction false} BlockIsUnique(text: string, start: Pattern, stop: Pattern, b: Block, r: string)
    requires Separated(start) && Separated(stop)
    requires FindBlock(text, start, stop) == Some(b)
    requires Padded(text[b.Begin()..b.End(|text|)], r)
    ensures forall m, e :: IsLeftmostMatch(start, text, 0, m) && IsLeftmostMatch(stop, text, m.end, e) ==>
      Padded(text[m.end..e.start], r)
    ensures forall m :: IsLeftmostMatch(start, text, 0, m) && NoMatchFrom(stop, text, m.end) ==>
      Padded(text[m.end..], r)
  {
    forall m | IsLeftmostMatch(start, text, 0, m)
      ensures m == b.marker
    {
      LeftmostUnique(start, text, 0, m, b.marker);
    }
    forall e | IsLeftmostMatch(stop, text, b.Begin(), e)
      ensures b.stop == Some(e)
    {
      LeftmostUnique(stop, text, b.Begin(), e, b.stop.value);
    }
    if b.stop.Some? {
      var e := b.stop.value;
      assert Accepts(stop, text[e.start..e.end]);
      assert !NoMatchFrom(stop, text, b.Begin());
    } else {
      assert text[b.Begin()..b.End(|text|)] == text[b.Begin()..];
    }
  }

  /** No match of `p` starts in `text[lo..hi]`. */
  ghost predicate NoMatchStartsIn(p: Pattern, text: string, lo: nat, hi: nat) {
    forall x, y :: lo <= x < hi && x <= y <= |text| ==> !Accepts(p, text[x..y])
  }

  /** No stop-marker match lies inside the block, so none lies inside what stripping leaves of it. */
  lemma {:induction false} StopAbsentFromBlock(text: string, stop: Pattern, b: Block, r: string)
    requires BeginsWithLiteral(stop)
    requires b.Begin() <= b.End(|text|) <= |text|
    requires b.stop.Some? ==> IsLeftmostMatch(stop, text, b.Begin(), b.stop.value)
    requires b.stop.None? ==> NoMatchFrom(stop, text, b.Begin())
    requires Padded(text[b.Begin()..b.End(|text|)], r)
    ensures forall i, j :: 0 <= i <= j <= |r| ==> !Accepts(stop, r[i..j])
  {
    var lo, hi := b.Begin(), b.End(|text|);
    var a: nat :| PaddedAt(text[lo..hi], r, a);
    NoStopStartsInBlock(text, stop, b);
    NoMatchInPadded(stop, text, lo, hi, r, a);
  }

  lemma {:induction false} NoStopStartsInBlock(text: string, stop: Pattern, b: Block)
    requires b.Begin() <= b.End(|text|) <= |text|
    requires b.stop.Some? ==> IsLeftmostMatch(stop, text, b.Begin(), b.stop.value)
    requires b.stop.None? ==> NoMatchFrom(stop, text, b.Begin())
    ensures NoMatchStartsIn(stop, text, b.Begin(), b.End(|text|))
  {
  }

  lemma {:induction false} NoMatchInPadded(p: Pattern, text: string, lo: nat, hi: nat, r: string, a: nat)
    requires BeginsWithLiteral(p)
    requires lo <= hi <= |text| && PaddedAt(text[lo..hi], r, a)
    requires NoMatchStartsIn(p, text, lo, hi)
    ensures forall i, j :: 0 <= i <= j <= |r| ==> !Accepts(p, r[i..j])
  {
    forall i, j | 0 <= i <= j <= |r|
      ensures !Accepts(p, r[i..j])
    {
      if i < j {
        PaddedSlice(text, lo, hi, r, a, i, j);
        NoMatchAt(p, text, lo, hi, lo + a + i, lo + a + j);
      } else {
        EmptyNotAccepted(p, r[i..j]);
      }
    }
  }

  lemma {:induction false} NoMatchAt(p: Pattern, text: string, lo: nat, hi: nat, x: nat, y: nat)
    requires NoMatchStartsIn(p, text, lo, hi) && lo <= x < hi && x <= y <= |text|
    ensures !Accepts(p, text[x..y])
  {
  }

  /** A slice of the stripped text is the slice of the text at the padding's offset. */
  lemma {:induction false} PaddedSlice(text: string, lo: nat, hi: nat, r: string, a: nat, i: nat, j: nat)
    requires lo <= hi <= |text| && PaddedAt(text[lo..hi], r, a) && i <= j <= |r|
    ensures lo + a + j <= hi && r[i..j] == text[lo + a + i..lo + a + j]
  {
    var t := text[lo..hi];
    assert r == t[a..a + |r|];
    SliceOfSlice(t, a, a + |r|, i, j);
    SliceOfSlice(text, lo, hi, a + i, a + j);
  }

  lemma {:induction false} EmptyNotAccepted(p: Pattern, w: string)
    requires BeginsWithLiteral(p) && |w| == 0
    ensures !Accepts(p, w)
  {
  }

  lemma {:induction false} SliceOfSlice(s: string, lo: nat, hi: nat, i: nat, j: nat)
    requires lo <= hi <= |s| && i <= j <= hi - lo
    ensures s[lo..hi][i..j] == s[lo + i..lo + j]
  {
    assert forall k :: 0 <= k < j - i ==> s[lo..hi][i..j][k] == s[lo + i + k];
  }

  /**
    For a case-sensitive literal, the leftmost stop match after `from` is the
    first occurrence `str.find` reports in `text[from..]` ...
   */
  lemma {:induction false} LiteralSearchFound(text: string, from: nat, w: string, i: nat)
    requires from <= |text| && OccursAt(text[from..], w, i)
    requires forall j: nat :: j < i ==> !OccursAt(text[from..], w, j)
    ensures IsLeftmostMatch(Literal(w, false), text, from, Match(from + i, from + i + |w|))
  {
    forall x, y | from <= x < from + i && x <= y <= |text|
      ensures !Accepts(Literal(w, false), text[x..y])
    {
      NoEarlierLiteral(text, from, w, i, x, y);
    }
    LiteralFoundAccepted(text, from, w, i);
  }

  lemma {:induction false} NoEarlierLiteral(text: string, from: nat, w: string, i: nat, x: nat, y: nat)
    requires from <= |text| && forall j: nat :: j < i ==> !OccursAt(text[from..], w, j)
    requires from <= x < from + i && x <= y <= |text|
    ensures !Accepts(Literal(w, false), text[x..y])
  {
    if Accepts(Literal(w, false), text[x..y]) {
      LiteralMatchOccurs(text, from, w, x, y);
    }
  }

  lemma {:induction false} LiteralFoundAccepted(text: string, from: nat, w: string, i: nat)
    requires from <= |text| && OccursAt(text[from..], w, i)
    ensures from + i + |w| <= |text| && Accepts(Literal(w, false), text[from + i..from + i + |w|])
  {
    assert text[from + i..from + i + |w|] == w by {
      SliceOfSlice(text, from, |text|, i, i + |w|);
    }
    LiteralAcceptsExactly(w, text[from + i..from + i + |w|]);
  }

  /** ... and there is no stop match when `str.find` finds nothing. */
  lemma {:induction false} LiteralSearchMissing(text: string, from: nat, w: string)
    requires from <= |text| && forall j: nat :: !OccursAt(text[from..], w, j)
    ensures NoMatchFrom(Literal(w, false), text, from)
  {
    forall x, y | from <= x <= y <= |text|
      ensures !Accepts(Literal(w, false), text[x..y])
    {
      if Accepts(Literal(w, false), text[x..y]) {
        LiteralMatchOccurs(text, from, w, x, y);
      }
    }
  }

  lemma {:induction false} LiteralMatchOccurs(text: string, from: nat, w: string, x: nat, y: nat)
    requires from <= x <= y <= |text| && Accepts(Literal(w, false), text[x..y])
    ensures OccursAt(text[from..], w, x - from)
  {
    LiteralAcceptsExactly(w, text[x..y]);
    SliceOfSlice(text, from, |text|, x - from, y - from);
  }

  /** `s[:s.find(w)]` when `w` occurs in `s`, and all of `s` otherwise. */
  function CutAtFirst(s: string, w: string): string {
    match Find(s, w, 0)
    case Some(i) => s[..i]
    case None => s
  }

  /** The block a case-sensitive literal stop pattern ends is the block `str.find` ends. */
  lemma {:induction false} LiteralCut(text: string, from: nat, w: string, r: string)
    requires from <= |text|
    requires forall e :: IsLeftmostMatch(Literal(w, false), text, from, e) ==> Padded(text[from..e.start], r)
    requires NoMatchFrom(Literal(w, false), text, from) ==> Padded(text[from..], r)
    ensures Padded(CutAtFirst(text[from..], w), r)
  {
    match Find(text[from..], w, 0)
    case Some(i) =>
      LiteralSearchFound(text, from, w, i);
      CutFound(text, from, i, r);
    case None =>
      LiteralSearchMissing(text, from, w);
  }

  lemma {:induction false} CutFound(text: string, from: nat, i: nat, r: string)
    requires from + i <= |text| && Padded(text[from..from + i], r)
    ensures Padded(text[from..][..i], r)
  {
    assert text[from..][..i] == text[from..from + i];
  }
}
