/** How a masking pass and the restoring pass of its kind fit together: the
    restoring pass gives back exactly the text the masking pass started from,
    provided no text outside the placeholders can be read as one. */
module Masking {
  import opened Text
  import opened Placeholders
  import opened Scanners

  /** `t` begins with `w`. */
  predicate StartsWith(t: string, w: string) {
    |w| <= |t| && t[..|w|] == w
  }

  /** No placeholder can begin inside `w`: every underscore in it is followed
      by a character other than an underscore. */
  predicate PlaceholderFree(w: string) {
    forall d :: 0 <= d < |w| && w[d] == '_' ==> d + 1 < |w| && w[d + 1] != '_'
  }

  /** Every placeholder body in `t` sits inside a whole placeholder. */
  predicate BodiesInMarks(k: Kind, t: string) {
    forall q :: 0 <= q < |t| && BodyAt(k, t, q) ==> 2 <= q && MarkAt(k, t[q - 2..]).Some?
  }

  // ---------------------------------------------------------------------
  // Character-level facts about matches

  lemma OpenerIsNotMarkChar(p: Pass, c: char)
    requires IsOpener(p, c)
    ensures !IsMarkChar(c)
  {
  }

  /** A match can never run into or out of a placeholder: its last character,
      or the one after it, is not a placeholder character. */
  lemma SpanEdge(p: Pass, s: string, i: nat)
    requires i < |s| && MatchEnd(p, s, i).Some?
    ensures var j := MatchEnd(p, s, i).value;
      !IsMarkChar(s[j - 1]) || j == |s| || !IsMarkChar(s[j])
  {
    var j := MatchEnd(p, s, i).value;
    MatchEndMatches(p, s, i);
    assert Matches(p, s, i, j);
  }

  /** A body inside a slice is a body of the whole text, and back. */
  lemma BodyInSlice(k: Kind, s: string, lo: int, hi: int, q: int)
    requires 0 <= lo <= hi <= |s| && 0 <= q && lo + q + |Name(k)| + 2 <= hi
    ensures BodyAt(k, s[lo..hi], q) <==> BodyAt(k, s, lo + q)
  {
    var w := |Name(k)|;
    var a := s[lo..hi][q..q + w];
    var b := s[lo + q..lo + q + w];
    forall r | 0 <= r < w ensures a[r] == b[r] {
      assert a[r] == s[lo..hi][q + r];
    }
    assert a == b;
  }

  // ---------------------------------------------------------------------
  // Single steps of a pass

  lemma MaskCopy(p: Pass, s: string, i: nat, n: nat)
    requires i < |s| && MatchEnd(p, s, i).None?
    ensures MaskFrom(p, s, i, n).text == [s[i]] + MaskFrom(p, s, i + 1, n).text
    ensures MaskFrom(p, s, i, n).spans == MaskFrom(p, s, i + 1, n).spans
  {
  }

  lemma MaskTake(p: Pass, s: string, i: nat, n: nat)
    requires i < |s| && MatchEnd(p, s, i).Some?
    ensures var j := MatchEnd(p, s, i).value;
      j <= |s|
      && MaskFrom(p, s, i, n).text == Placeholder(KindOf(p), n) + MaskFrom(p, s, j, n + 1).text
      && MaskFrom(p, s, i, n).spans == [s[i..j]] + MaskFrom(p, s, j, n + 1).spans
  {
  }

  lemma NoOpenerNoMatch(p: Pass, s: string, i: nat)
    requires i < |s| && !IsOpener(p, s[i])
    ensures MatchEnd(p, s, i).None?
  {
  }

  // ---------------------------------------------------------------------
  // What a pass leaves alone

  /** Over a stretch in which the regex finds no match, a pass copies the
      text, even where a character there could open one. */
  lemma {:induction false} MaskSkipNone(p: Pass, s: string, i: nat, k: nat, n: nat)
    requires i <= k <= |s|
    requires forall q :: i <= q < k ==> MatchEnd(p, s, q).None?
    ensures MaskFrom(p, s, i, n).text == s[i..k] + MaskFrom(p, s, k, n).text
    ensures MaskFrom(p, s, i, n).spans == MaskFrom(p, s, k, n).spans
    decreases k - i
  {
    if i < k {
      MaskCopy(p, s, i, n);
      MaskSkipNone(p, s, i + 1, k, n);
      SliceCons(s, i, k);
      ConsJoin(s[i], s[i + 1..k], s[i..k], MaskFrom(p, s, k, n).text, MaskFrom(p, s, i + 1, n).text, MaskFrom(p, s, i, n).text);
    } else {
      assert s[i..k] == [];
    }
  }

  lemma SliceCons(s: string, i: nat, k: nat)
    requires i < k <= |s|
    ensures s[i..k] == [s[i]] + s[i + 1..k]
  {
  }

  /** Over a stretch in which no match can start, a pass copies the text. */
  lemma MaskSkip(p: Pass, s: string, i: nat, k: nat, n: nat)
    requires i <= k <= |s|
    requires forall q :: i <= q < k ==> !IsOpener(p, s[q])
    ensures MaskFrom(p, s, i, n).text == s[i..k] + MaskFrom(p, s, k, n).text
    ensures MaskFrom(p, s, i, n).spans == MaskFrom(p, s, k, n).spans
  {
    forall q | i <= q < k ensures MatchEnd(p, s, q).None? {
      NoOpenerNoMatch(p, s, q);
    }
    MaskSkipNone(p, s, i, k, n);
  }

  /** No placeholder-free text begins with a placeholder. */
  lemma PlaceholderNotFree(k: Kind, n: nat, rest: string, w: string)
    requires w != [] && StartsWith(Placeholder(k, n) + rest, w)
    ensures !PlaceholderFree(w)
  {
    var t := Placeholder(k, n) + rest;
    PlaceholderChars(k, n);
    assert w[0] == t[0] == '_';
    if |w| > 1 {
      assert w[1] == t[1] == '_';
    }
  }

  /** Masked output that begins with placeholder-free text does not begin
      with a placeholder, so no match starts at `i`. */
  lemma RawStart(p: Pass, s: string, i: nat, n: nat, w: string)
    requires i <= |s| && w != []
    requires PlaceholderFree(w)
    requires StartsWith(MaskFrom(p, s, i, n).text, w)
    ensures i < |s| && MatchEnd(p, s, i).None?
  {
    if i < |s| && MatchEnd(p, s, i).Some? {
      MaskTake(p, s, i, n);
      PlaceholderNotFree(KindOf(p), n, MaskFrom(p, s, MatchEnd(p, s, i).value, n + 1).text, w);
    }
  }

  /** Text that begins the masked output with no placeholder inside it was
      copied from the input. */
  lemma {:induction false} RawWindow(p: Pass, s: string, i: nat, n: nat, w: string)
    requires i <= |s|
    requires PlaceholderFree(w)
    requires StartsWith(MaskFrom(p, s, i, n).text, w)
    ensures i + |w| <= |s| && s[i..i + |w|] == w
    decreases |w|
  {
    if w != [] {
      RawStart(p, s, i, n, w);
      MaskCopy(p, s, i, n);
      StartsWithTail(s[i], MaskFrom(p, s, i + 1, n).text, MaskFrom(p, s, i, n).text, w);
      PlaceholderFreeTail(w);
      RawWindow(p, s, i + 1, n, w[1..]);
      SliceHead(s, i, w);
    }
  }

  lemma StartsWithTail(c: char, rest: string, t: string, w: string)
    requires t == [c] + rest && w != [] && StartsWith(t, w)
    ensures c == w[0] && StartsWith(rest, w[1..])
  {
    assert t[..|w|][0] == c;
    assert rest[..|w| - 1] == t[..|w|][1..];
  }

  lemma PlaceholderFreeTail(w: string)
    requires w != [] && PlaceholderFree(w)
    ensures PlaceholderFree(w[1..])
  {
    forall d | 0 <= d < |w| - 1 && w[1..][d] == '_' ensures d + 1 < |w| - 1 && w[1..][d + 1] != '_' {
      assert w[d + 1] == '_';
    }
  }

  lemma SliceHead(s: string, i: nat, w: string)
    requires w != [] && i < |s| && s[i] == w[0]
    requires i + 1 + |w[1..]| <= |s| && s[i + 1..i + 1 + |w[1..]|] == w[1..]
    ensures i + |w| <= |s| && s[i..i + |w|] == w
  {
    assert s[i..i + |w|] == [s[i]] + s[i + 1..i + |w|];
  }

  /** The text `KIND_d` that a body consists of cannot hold a placeholder. */
  lemma BodyWindow(k: Kind, t: string, q: nat)
    requires BodyAt(k, t, q)
    ensures PlaceholderFree(t[q..q + |Name(k)| + 2])
  {
    var w := |Name(k)|;
    var x := t[q..q + w + 2];
    forall d | 0 <= d < w ensures x[d] != '_' {
      assert x[d] == t[q..q + w][d];
    }
  }

  /** A body that begins the masked output at a copied character was in the
      input. */
  lemma BodyAtRaw(p: Pass, s: string, i: nat, n: nat, k: Kind)
    requires i < |s|
    requires BodyAt(k, MaskFrom(p, s, i, n).text, 0)
    ensures BodyAt(k, s, i)
  {
    var t := MaskFrom(p, s, i, n).text;
    var w := t[..|Name(k)| + 2];
    BodyWindow(k, t, 0);
    BodyPrefix(k, t, w);
    RawWindow(p, s, i, n, w);
    BodyInSlice(k, s, i, i + |w|, 0);
  }

  /** A body at the start of `t` is one of its first characters alone. */
  lemma BodyPrefix(k: Kind, t: string, w: string)
    requires BodyAt(k, t, 0) && w == t[..|Name(k)| + 2]
    ensures t[0..|Name(k)| + 2] == w && BodyAt(k, w, 0)
  {
    assert w[0..|Name(k)|] == t[0..|Name(k)|];
  }

  /** A placeholder holds no body of the other kind. */
  lemma NoBodyInPlaceholder(k: Kind, kp: Kind, n: nat, rest: string, q: nat)
    requires k != kp && q < |Placeholder(kp, n)|
    ensures !BodyAt(k, Placeholder(kp, n) + rest, q)
  {
    var ph := Placeholder(kp, n);
    PlaceholderChars(kp, n);
    assert Other(kp) == k;
    assert (ph + rest)[q] == ph[q] != Name(k)[0];
    if q + |Name(k)| <= |ph + rest| {
      assert (ph + rest)[q..q + |Name(k)|][0] == (ph + rest)[q];
    }
  }

  /** Masking with placeholders of one kind puts no body of the other kind
      into the text. */
  lemma {:induction false} NoBodyKeptAt(p: Pass, s: string, i: nat, n: nat, k: Kind, q: nat)
    requires i <= |s|
    requires k != KindOf(p)
    requires NoBody(k, s)
    ensures !BodyAt(k, MaskFrom(p, s, i, n).text, q)
    decreases |s| - i, 1
  {
    if i < |s| {
      if MatchEnd(p, s, i).Some? {
        NoBodyKeptAtMatch(p, s, i, n, k, q, MatchEnd(p, s, i).value);
      } else {
        NoBodyKeptAtChar(p, s, i, n, k, q);
      }
    }
  }

  lemma {:induction false} NoBodyKeptAtMatch(p: Pass, s: string, i: nat, n: nat, k: Kind, q: nat, j: nat)
    requires i < |s| && MatchEnd(p, s, i) == Some(j)
    requires k != KindOf(p)
    requires NoBody(k, s)
    ensures !BodyAt(k, MaskFrom(p, s, i, n).text, q)
    decreases |s| - i, 0
  {
    var ph := Placeholder(KindOf(p), n);
    var rest := MaskFrom(p, s, j, n + 1).text;
    MaskTake(p, s, i, n);
    if q < |ph| {
      NoBodyInPlaceholder(k, KindOf(p), n, rest, q);
    } else {
      NoBodyKeptAt(p, s, j, n + 1, k, q - |ph|);
      BodyInTail(k, ph, rest, q, q - |ph|);
    }
  }

  lemma {:induction false} NoBodyKeptAtChar(p: Pass, s: string, i: nat, n: nat, k: Kind, q: nat)
    requires i < |s| && MatchEnd(p, s, i).None?
    requires k != KindOf(p)
    requires NoBody(k, s)
    ensures !BodyAt(k, MaskFrom(p, s, i, n).text, q)
    decreases |s| - i, 0
  {
    MaskCopy(p, s, i, n);
    if q == 0 {
      if BodyAt(k, MaskFrom(p, s, i, n).text, 0) {
        BodyAtRaw(p, s, i, n, k);
        assert false;
      }
    } else {
      NoBodyKeptAt(p, s, i + 1, n, k, q - 1);
      BodyInTail(k, [s[i]], MaskFrom(p, s, i + 1, n).text, q, q - 1);
    }
  }

  lemma NoBodyKept(p: Pass, s: string, n: nat, k: Kind)
    requires k != KindOf(p)
    requires NoBody(k, s)
    ensures NoBody(k, Mask(p, s, n).text)
  {
    forall q | 0 <= q < |Mask(p, s, n).text| ensures !BodyAt(k, Mask(p, s, n).text, q) {
      NoBodyKeptAt(p, s, 0, n, k, q);
    }
  }

  // ---------------------------------------------------------------------
  // Pure string steps

  lemma SplitAt(s: string, i: nat, j: nat)
    requires i <= j <= |s|
    ensures s[i..j] + s[j..] == s[i..]
  {
  }

  /** A match found two places before a body in the tail of `x` is one in
      `x` itself. */
  lemma MarkInTail(k: Kind, a: string, b: string, x: string, q: nat, r: nat)
    requires x == a + b && r == q - |a| && 2 <= r <= |b|
    requires MarkAt(k, b[r - 2..]).Some?
    ensures 2 <= q && MarkAt(k, x[q - 2..]).Some?
  {
    assert x[q - 2..] == b[r - 2..];
  }

  /** A body of its own kind inside a placeholder can only be the one at
      offset 2, and the placeholder is a match there. */
  lemma OwnBodyInPlaceholder(k: Kind, n: nat, rest: string, t: string, q: nat)
    requires t == Placeholder(k, n) + rest
    requires q < |Placeholder(k, n)|
    requires BodyAt(k, t, q)
    ensures q == 2 && MarkAt(k, t[q - 2..]).Some?
  {
    var ph := Placeholder(k, n);
    PlaceholderChars(k, n);
    assert t[q..q + |Name(k)|][0] == t[q] == ph[q];
    assert t[0..] == t;
    PlaceholderMark(k, n, rest);
  }

  // ---------------------------------------------------------------------
  // Bodies of a pass's own kind

  /** After a pass over text with no body of its kind, every body of that
      kind in the output is the body of one of the pass's placeholders. */
  lemma {:induction false} BodyInMarkAt(p: Pass, s: string, i: nat, n: nat, q: nat)
    requires i <= |s|
    requires NoBody(KindOf(p), s)
    requires BodyAt(KindOf(p), MaskFrom(p, s, i, n).text, q)
    ensures 2 <= q && MarkAt(KindOf(p), MaskFrom(p, s, i, n).text[q - 2..]).Some?
    decreases |s| - i, 1
  {
    if MatchEnd(p, s, i).Some? {
      BodyInMarkAtMatch(p, s, i, n, q, MatchEnd(p, s, i).value);
    } else {
      BodyInMarkAtChar(p, s, i, n, q);
    }
  }

  lemma {:induction false} BodyInMarkAtMatch(p: Pass, s: string, i: nat, n: nat, q: nat, j: nat)
    requires i < |s| && MatchEnd(p, s, i) == Some(j)
    requires NoBody(KindOf(p), s)
    requires BodyAt(KindOf(p), MaskFrom(p, s, i, n).text, q)
    ensures 2 <= q && MarkAt(KindOf(p), MaskFrom(p, s, i, n).text[q - 2..]).Some?
    decreases |s| - i, 0
  {
    var k := KindOf(p);
    var t := MaskFrom(p, s, i, n).text;
    var ph := Placeholder(k, n);
    var rest := MaskFrom(p, s, j, n + 1).text;
    MaskTake(p, s, i, n);
    if q < |ph| {
      OwnBodyInPlaceholder(k, n, rest, t, q);
    } else {
      BodyInTail(k, ph, rest, q, q - |ph|);
      BodyInMarkAt(p, s, j, n + 1, q - |ph|);
      MarkInTail(k, ph, rest, t, q, q - |ph|);
    }
  }

  lemma {:induction false} BodyInMarkAtChar(p: Pass, s: string, i: nat, n: nat, q: nat)
    requires i < |s| && MatchEnd(p, s, i).None?
    requires NoBody(KindOf(p), s)
    requires BodyAt(KindOf(p), MaskFrom(p, s, i, n).text, q)
    ensures 2 <= q && MarkAt(KindOf(p), MaskFrom(p, s, i, n).text[q - 2..]).Some?
    decreases |s| - i, 0
  {
    var k := KindOf(p);
    var rest := MaskFrom(p, s, i + 1, n).text;
    MaskCopy(p, s, i, n);
    if q == 0 {
      BodyAtRaw(p, s, i, n, k);
      assert false;
    } else {
      BodyInTail(k, [s[i]], rest, q, q - 1);
      BodyInMarkAt(p, s, i + 1, n, q - 1);
      MarkInTail(k, [s[i]], rest, MaskFrom(p, s, i, n).text, q, q - 1);
    }
  }

  lemma BodiesInMarksAfterMask(p: Pass, s: string, n: nat)
    requires NoBody(KindOf(p), s)
    ensures BodiesInMarks(KindOf(p), Mask(p, s, n).text)
  {
    var t := Mask(p, s, n).text;
    forall q | 0 <= q < |t| && BodyAt(KindOf(p), t, q)
      ensures 2 <= q && MarkAt(KindOf(p), t[q - 2..]).Some?
    {
      BodyInMarkAt(p, s, 0, n, q);
    }
  }

  // ---------------------------------------------------------------------
  // Restoring a masked text

  /** A match of the restoring regex inside `s` that ends within the span
      `s[i..j]` puts a body into the span. */
  lemma MarkInsideSpan(k: Kind, s: string, i: nat, j: nat, q: nat)
    requires i <= q < j <= |s|
    requires MarkAt(k, s[q..]).Some? && q + MarkAt(k, s[q..]).value.len <= j
    ensures BodyAt(k, s[i..j], q + 2 - i)
  {
    MarkShape(k, s[q..]);
    assert s[q..][2..2 + |Name(k)|] == s[q + 2..q + 2 + |Name(k)|];
    assert BodyAt(k, s, q + 2);
    BodyInSlice(k, s, i, j, q + 2 - i);
  }

  /** A match of the restoring regex that starts before `j` and runs past it
      has placeholder characters on both sides of `j`. */
  lemma MarkAcross(k: Kind, s: string, q: nat, j: nat)
    requires q < j <= |s|
    requires MarkAt(k, s[q..]).Some? && j < q + MarkAt(k, s[q..]).value.len
    ensures j < |s| && IsMarkChar(s[j - 1]) && IsMarkChar(s[j])
  {
    MarkShape(k, s[q..]);
    assert s[q..][j - 1 - q] == s[j - 1];
    assert s[q..][j - q] == s[j];
  }

  /** No restoring match starts inside a span with no body of its kind, when
      every body in the text sits inside a placeholder. */
  lemma NoMarkInSpanAt(p: Pass, s: string, i: nat, q: nat)
    requires i < |s| && MatchEnd(p, s, i).Some?
    requires NoBody(KindOf(p), s[i..MatchEnd(p, s, i).value])
    requires i <= q < MatchEnd(p, s, i).value
    ensures MarkAt(KindOf(p), s[q..]).None?
  {
    var k := KindOf(p);
    var j := MatchEnd(p, s, i).value;
    if MarkAt(k, s[q..]).Some? {
      if q + MarkAt(k, s[q..]).value.len <= j {
        MarkInsideSpan(k, s, i, j, q);
      } else {
        MarkAcross(k, s, q, j);
        SpanEdge(p, s, i);
      }
      assert false;
    }
  }

  lemma NoMarkInSpan(p: Pass, s: string, i: nat)
    requires i < |s| && MatchEnd(p, s, i).Some?
    requires NoBody(KindOf(p), s[i..MatchEnd(p, s, i).value])
    ensures var j := MatchEnd(p, s, i).value;
      forall q :: 0 <= q < j - i ==> NoMarkAt(KindOf(p), s[i..j] + s[j..], q)
  {
    var j := MatchEnd(p, s, i).value;
    forall q | 0 <= q < j - i ensures NoMarkAt(KindOf(p), s[i..j] + s[j..], q) {
      NoMarkInSpanAt(p, s, i, i + q);
      SplitSuffix(s, i, j, q);
    }
  }

  lemma SplitSuffix(s: string, i: nat, j: nat, q: nat)
    requires i <= j <= |s| && i + q <= |s|
    ensures q <= |s[i..j] + s[j..]| && (s[i..j] + s[j..])[q..] == s[i + q..]
  {
    assert s[i..j] + s[j..] == s[i..];
  }

  /** The characters of a match in `s[i..]` are no opener of any pass. */
  lemma MarkHasNoOpener(p: Pass, k: Kind, s: string, i: nat)
    requires i < |s| && MarkAt(k, s[i..]).Some?
    ensures i + MarkAt(k, s[i..]).value.len <= |s|
    ensures forall q :: i <= q < i + MarkAt(k, s[i..]).value.len ==> !IsOpener(p, s[q])
  {
    var m := MarkAt(k, s[i..]).value.len;
    MarkShape(k, s[i..]);
    forall q | i <= q < i + m ensures !IsOpener(p, s[q]) {
      assert s[i..][q - i] == s[q];
      if IsOpener(p, s[q]) {
        OpenerIsNotMarkChar(p, s[q]);
      }
    }
  }

  /** A match in `x + y` that ends within `x` reads the same in `x + z`. */
  lemma MarkMoved(k: Kind, x: string, y: string, z: string)
    requires MarkAt(k, x + y).Some? && MarkAt(k, x + y).value.len <= |x|
    ensures MarkAt(k, x + z) == MarkAt(k, x + y)
  {
    MarkTrim(k, x, y);
    MarkExtend(k, x, z);
  }

  /** A placeholder already in the text, of length `m`, is copied through
      whole. */
  lemma RawMarkKept(p: Pass, s: string, i: nat, n: nat, m: nat)
    requires i < |s| && MarkAt(KindOf(p), s[i..]).Some? && m == MarkAt(KindOf(p), s[i..]).value.len
    ensures i + m <= |s|
    ensures MaskFrom(p, s, i, n).text == s[i..i + m] + MaskFrom(p, s, i + m, n).text
    ensures MaskFrom(p, s, i, n).spans == MaskFrom(p, s, i + m, n).spans
  {
    MarkHasNoOpener(p, KindOf(p), s, i);
    MaskSkip(p, s, i, i + m, n);
  }

  /** A copied character at which the input holds no placeholder does not
      become the start of one in the output. */
  lemma NoMarkAfterRaw(p: Pass, s: string, i: nat, n: nat)
    requires i < |s| && MatchEnd(p, s, i).None?
    requires MarkAt(KindOf(p), s[i..]).None?
    requires BodiesInMarks(KindOf(p), s)
    ensures MarkAt(KindOf(p), MaskFrom(p, s, i, n).text).None?
  {
    var k := KindOf(p);
    var t := MaskFrom(p, s, i, n).text;
    if MarkAt(k, t).Some? {
      MarkShape(k, t);
      MaskCopy(p, s, i, n);
      var t1 := MaskFrom(p, s, i + 1, n).text;
      BodyInTail(k, [s[i]], t1, 2, 1);
      if MatchEnd(p, s, i + 1).Some? {
        MaskTake(p, s, i + 1, n);
      } else {
        MaskCopy(p, s, i + 1, n);
        var t2 := MaskFrom(p, s, i + 2, n).text;
        BodyInTail(k, [s[i + 1]], t2, 1, 0);
        BodyAtRaw(p, s, i + 2, n, k);
      }
      assert false;
    }
  }

  /** `list` holds the spans `sp` from index `n` on, and none of them holds
      a body of kind `k`. */
  predicate SpansListed(k: Kind, sp: seq<string>, n: nat, list: seq<string>) {
    forall d :: 0 <= d < |sp| ==> n + d < |list| && list[n + d] == sp[d] && NoBody(k, sp[d])
  }

  lemma SpansListedTail(k: Kind, x: string, sp: seq<string>, n: nat, list: seq<string>)
    requires SpansListed(k, [x] + sp, n, list)
    ensures n < |list| && list[n] == x && NoBody(k, x)
    ensures SpansListed(k, sp, n + 1, list)
  {
    assert ([x] + sp)[0] == x;
    forall d | 0 <= d < |sp| ensures n + 1 + d < |list| && list[n + 1 + d] == sp[d] && NoBody(k, sp[d]) {
      assert ([x] + sp)[d + 1] == sp[d];
    }
  }

  /** Restoring over a placeholder puts back its span, when nothing in the
      span starts a match. */
  lemma RestoreTakeStep(k: Kind, list: seq<string>, n: nat, span: string, rest: string, after: string, x: string, y: string)
    requires x == span + after && y == Placeholder(k, n) + rest
    requires n < |list| && list[n] == span
    requires forall q :: 0 <= q < |span| ==> NoMarkAt(k, span + after, q)
    requires Restore(k, list, rest) == Restore(k, list, after)
    ensures Restore(k, list, y) == Restore(k, list, x)
  {
    var ph := Placeholder(k, n);
    PlaceholderMark(k, n, rest);
    RestoreMark(k, list, ph + rest);
    assert (ph + rest)[|ph|..] == rest;
    RestoreThrough(k, list, span, after);
  }

  /** Restoring over a placeholder that both texts begin with. */
  lemma RestoreMarkStep(k: Kind, list: seq<string>, a: string, b: string, c: string)
    requires MarkAt(k, a + b).Some? && MarkAt(k, a + b).value.len == |a|
    requires Restore(k, list, b) == Restore(k, list, c)
    ensures Restore(k, list, a + c) == Restore(k, list, a + b)
  {
    MarkMoved(k, a, b, c);
    RestoreMark(k, list, a + b);
    RestoreMark(k, list, a + c);
    assert (a + b)[|a|..] == b;
    assert (a + c)[|a|..] == c;
  }

  /** Restoring over a placeholder that stands at `i` in `s` and heads `y`. */
  lemma RestoreAfterMark(k: Kind, list: seq<string>, s: string, i: nat, m: nat, c: string, y: string)
    requires i + m <= |s| && MarkAt(k, s[i..]).Some? && MarkAt(k, s[i..]).value.len == m
    requires y == s[i..i + m] + c
    requires Restore(k, list, s[i + m..]) == Restore(k, list, c)
    ensures Restore(k, list, y) == Restore(k, list, s[i..])
  {
    var a, b := s[i..i + m], s[i + m..];
    SplitAt(s, i, i + m);
    RestoreMarkStep(k, list, a, b, c);
  }

  /** Restoring over a character at which neither text starts a match. */
  lemma RestoreCharStep(k: Kind, list: seq<string>, c: char, b: string, d: string, x: string, y: string)
    requires x == [c] + b && y == [c] + d
    requires MarkAt(k, x).None? && MarkAt(k, y).None?
    requires Restore(k, list, b) == Restore(k, list, d)
    ensures Restore(k, list, x) == Restore(k, list, y)
  {
    RestoreCopy(k, list, [c] + b);
    RestoreCopy(k, list, [c] + d);
    assert ([c] + b)[1..] == b;
    assert ([c] + d)[1..] == d;
  }

  /** Restoring a masked text gives what restoring the unmasked text gives,
      provided each placeholder's list entry is the span it replaced and no
      span holds a body of the pass's kind. */
  lemma {:induction false} RestoreMasked(p: Pass, s: string, i: nat, n: nat, list: seq<string>)
    requires i <= |s|
    requires BodiesInMarks(KindOf(p), s)
    requires SpansListed(KindOf(p), MaskFrom(p, s, i, n).spans, n, list)
    ensures Restore(KindOf(p), list, MaskFrom(p, s, i, n).text) == Restore(KindOf(p), list, s[i..])
    decreases |s| - i, 1
  {
    if i == |s| {
      assert s[i..] == [];
    } else if MatchEnd(p, s, i).Some? {
      RestoreAtMatch(p, s, i, n, list, MatchEnd(p, s, i).value);
    } else if MarkAt(KindOf(p), s[i..]).Some? {
      RestoreAtMark(p, s, i, n, list, MarkAt(KindOf(p), s[i..]).value.len);
    } else {
      RestoreAtChar(p, s, i, n, list);
    }
  }

  /** `RestoreMasked` where a match of the pass, ending at `j`, starts at `i`. */
  lemma {:induction false} RestoreAtMatch(p: Pass, s: string, i: nat, n: nat, list: seq<string>, j: nat)
    requires i < |s| && MatchEnd(p, s, i) == Some(j)
    requires BodiesInMarks(KindOf(p), s)
    requires SpansListed(KindOf(p), MaskFrom(p, s, i, n).spans, n, list)
    ensures Restore(KindOf(p), list, MaskFrom(p, s, i, n).text) == Restore(KindOf(p), list, s[i..])
    decreases |s| - i, 0
  {
    var k := KindOf(p);
    var rest := MaskFrom(p, s, j, n + 1);
    MaskTake(p, s, i, n);
    SpansListedTail(k, s[i..j], rest.spans, n, list);
    RestoreMasked(p, s, j, n + 1, list);
    NoMarkInSpan(p, s, i);
    SplitAt(s, i, j);
    RestoreTakeStep(k, list, n, s[i..j], rest.text, s[j..], s[i..], MaskFrom(p, s, i, n).text);
  }

  /** `RestoreMasked` where a placeholder of length `m` already stands at `i`. */
  lemma {:induction false} RestoreAtMark(p: Pass, s: string, i: nat, n: nat, list: seq<string>, m: nat)
    requires i < |s| && MarkAt(KindOf(p), s[i..]).Some? && m == MarkAt(KindOf(p), s[i..]).value.len
    requires BodiesInMarks(KindOf(p), s)
    requires SpansListed(KindOf(p), MaskFrom(p, s, i, n).spans, n, list)
    ensures Restore(KindOf(p), list, MaskFrom(p, s, i, n).text) == Restore(KindOf(p), list, s[i..])
    decreases |s| - i, 0
  {
    RawMarkKept(p, s, i, n, m);
    RestoreMasked(p, s, i + m, n, list);
    RestoreAfterMark(KindOf(p), list, s, i, m, MaskFrom(p, s, i + m, n).text, MaskFrom(p, s, i, n).text);
  }

  /** `RestoreMasked` where the character at `i` is copied. */
  lemma {:induction false} RestoreAtChar(p: Pass, s: string, i: nat, n: nat, list: seq<string>)
    requires i < |s| && MatchEnd(p, s, i).None? && MarkAt(KindOf(p), s[i..]).None?
    requires BodiesInMarks(KindOf(p), s)
    requires SpansListed(KindOf(p), MaskFrom(p, s, i, n).spans, n, list)
    ensures Restore(KindOf(p), list, MaskFrom(p, s, i, n).text) == Restore(KindOf(p), list, s[i..])
    decreases |s| - i, 0
  {
    NoMarkAfterRaw(p, s, i, n);
    MaskCopy(p, s, i, n);
    RestoreMasked(p, s, i + 1, n, list);
    SplitAt(s, i, i + 1);
    assert s[i..i + 1] == [s[i]];
    RestoreCharStep(KindOf(p), list, s[i], MaskFrom(p, s, i + 1, n).text, s[i + 1..], MaskFrom(p, s, i, n).text, s[i..]);
  }

  // ---------------------------------------------------------------------
  // Whole passes

  /** A pass over text that holds no character its regex can start with
      changes nothing and records nothing. */
  lemma MaskNothing(p: Pass, s: string, n: nat)
    requires forall q :: 0 <= q < |s| ==> !IsOpener(p, s[q])
    ensures Mask(p, s, n) == Masked(s, [])
  {
    MaskSkip(p, s, 0, |s|, n);
    assert s[0..|s|] == s;
  }

  /** One pass undone: restoring the masked text with a list that holds the
      recorded spans at their indices gives back the text the pass started
      from, when that text held no placeholder body of the pass's kind. */
  lemma RestoreAfterMask(p: Pass, s: string, n: nat, list: seq<string>)
    requires NoBody(KindOf(p), s)
    requires SpansListed(KindOf(p), Mask(p, s, n).spans, n, list)
    ensures Restore(KindOf(p), list, Mask(p, s, n).text) == s
  {
    RestoreMasked(p, s, 0, n, list);
    assert s[0..] == s;
    RestoreIdentity(KindOf(p), list, s);
  }

  /** Two passes that share a counter, undone by one restoring pass: the
      second pass numbers its spans on from where the first stopped, and the
      placeholders the first pass wrote are copied through the second. */
  lemma RestoreAfterTwoMasks(p1: Pass, p2: Pass, k: Kind, s: string, n: nat, first: Masked, second: Masked,
                             list: seq<string>)
    requires KindOf(p1) == k && KindOf(p2) == k
    requires first == Mask(p1, s, n) && second == Mask(p2, first.text, n + |first.spans|)
    requires NoBody(k, s)
    requires SpansListed(k, first.spans, n, list) && SpansListed(k, second.spans, n + |first.spans|, list)
    ensures Restore(k, list, second.text) == s
  {
    var m := n + |first.spans|;
    assert second == MaskFrom(p2, first.text, 0, m);
    BodiesInMarksAfterMask(p1, s, n);
    RestoreMasked(p2, first.text, 0, m, list);
    assert first.text[0..] == first.text;
    assert Restore(k, list, second.text) == Restore(k, list, first.text);
    RestoreAfterMask(p1, s, n, list);
  }

  /** No entry of `list` holds a placeholder body of kind `k`. */
  predicate Clean(k: Kind, list: seq<string>) {
    forall d :: 0 <= d < |list| ==> NoBody(k, list[d])
  }

  /** Two runs of spans, recorded one after the other, sit in their
      concatenation at the indices the shared counter gave them. */
  lemma CleanListed(k: Kind, sp1: seq<string>, sp2: seq<string>)
    requires Clean(k, sp1 + sp2)
    ensures SpansListed(k, sp1, 0, sp1 + sp2)
    ensures SpansListed(k, sp2, |sp1|, sp1 + sp2)
  {
    forall d | 0 <= d < |sp1| ensures (sp1 + sp2)[d] == sp1[d] {
    }
    forall d | 0 <= d < |sp2| ensures (sp1 + sp2)[|sp1| + d] == sp2[d] {
    }
  }

  /** A pass over text in which its regex matches nowhere changes nothing
      and records nothing. */
  lemma {:induction false} MaskNoMatch(p: Pass, s: string, i: nat, n: nat)
    requires i <= |s|
    requires forall q :: i <= q < |s| ==> MatchEnd(p, s, q).None?
    ensures MaskFrom(p, s, i, n) == Masked(s[i..], [])
    decreases |s| - i
  {
    if i < |s| {
      MaskCopy(p, s, i, n);
      MaskNoMatch(p, s, i + 1, n);
      assert s[i..] == [s[i]] + s[i + 1..];
    }
  }

  /** The text a pass records is a whole comment or literal on its own: its
      regex, run over the span alone, matches all of it. */
  predicate IsSpanOf(p: Pass, x: string) {
    Matches(p, x, 0, |x|)
  }

  /** A match cut out of its text is still a match of the whole cut. */
  lemma MatchSlice(p: Pass, s: string, i: nat, e: nat)
    requires Matches(p, s, i, e)
    ensures i < e <= |s| && IsSpanOf(p, s[i..e])
  {
    var x := s[i..e];
    match p
    case BlockComment =>
      forall q | 2 <= q < |x| - 2 ensures !PairAt(x, q, '*', '/') {
        assert !PairAt(s, i + q, '*', '/');
      }
    case LineComment =>
      forall q | 0 <= q < |x| ensures !IsLineTerminator(x[q]) {
        assert x[q] == s[i + q];
      }
    case TemplateLiteral =>
      LiteralSlice(s, i, e);
    case QuotedString =>
      LiteralSlice(s, i, e);
  }

  lemma LiteralSlice(s: string, i: nat, e: nat)
    requires IsLiteralAt(s, i, e)
    ensures IsLiteralAt(s[i..e], 0, e - i)
  {
    var x := s[i..e];
    var body, inner := x[1..|x| - 1], s[i + 1..e - 1];
    forall q | 0 <= q < |body| ensures body[q] == inner[q] {
      assert x[1 + q] == s[i + 1 + q];
    }
    assert body == inner;
  }

  /** Every span a pass records from position `i` on is a whole match of its
      regex taken from `s[i..]`. */
  lemma {:induction false} MaskSpansMatch(p: Pass, s: string, i: nat, n: nat)
    requires i <= |s|
    ensures forall d :: 0 <= d < |MaskFrom(p, s, i, n).spans| ==> IsSpanOf(p, MaskFrom(p, s, i, n).spans[d])
    decreases |s| - i
  {
    if i < |s| {
      match MatchEnd(p, s, i)
      case Some(j) =>
        MatchEndMatches(p, s, i);
        MatchSlice(p, s, i, j);
        MaskSpansMatch(p, s, j, n + 1);
      case None =>
        MaskSpansMatch(p, s, i + 1, n);
    }
  }

  // ---------------------------------------------------------------------
  // Restoring around a placeholder

  /** No body starts in or just after body-free text that a placeholder of
      the same kind follows: one ending inside the text would be a body of
      the text, and one running into the placeholder would need a body
      across its opening `__`. */
  lemma NoBodyBeforePlaceholder(k: Kind, x: string, n: nat, z: string, r: nat)
    requires NoBody(k, x) && r <= |x| + 1
    ensures !BodyAt(k, x + (Placeholder(k, n) + z), r)
  {
    var t := x + (Placeholder(k, n) + z);
    var w := |Name(k)|;
    PlaceholderChars(k, n);
    assert t[|x|] == '_' && t[|x| + 1] == '_';
    if r + w + 2 <= |x| {
      assert t[0..|x|] == x;
      BodyInSlice(k, t, 0, |x|, r);
    } else if r == |x| + 1 {
      BodyNotAt(k, t, r);
    } else {
      UnderscoresNotBody(k, t, r, |x|);
    }
  }

  /** No restoring match starts in body-free text that a placeholder of the
      same kind follows. */
  lemma NoMarkBeforePlaceholder(k: Kind, x: string, n: nat, z: string, q: nat)
    requires NoBody(k, x) && q < |x|
    ensures NoMarkAt(k, x + (Placeholder(k, n) + z), q)
  {
    var t := x + (Placeholder(k, n) + z);
    if MarkAt(k, t[q..]).Some? {
      MarkShape(k, t[q..]);
      assert t == t[..q] + t[q..];
      BodyInTail(k, t[..q], t[q..], q + 2, 2);
      NoBodyBeforePlaceholder(k, x, n, z, q + 2);
      assert false;
    }
  }

  /** Restoring body-free text followed by a placeholder and more text keeps
      the text, puts in the placeholder's entry, and goes on after it. */
  lemma RestoreAroundPlaceholder(k: Kind, list: seq<string>, x: string, n: nat, z: string)
    requires NoBody(k, x)
    ensures Restore(k, list, x + Placeholder(k, n) + z) == x + Lookup(list, n) + Restore(k, list, z)
  {
    var p := Placeholder(k, n);
    forall q | 0 <= q < |x| ensures NoMarkAt(k, x + (p + z), q) {
      NoMarkBeforePlaceholder(k, x, n, z, q);
    }
    RestoreThrough(k, list, x, p + z);
    PlaceholderMark(k, n, z);
    RestoreMark(k, list, p + z);
    assert (p + z)[|p|..] == z;
    Assoc(x, p, z);
    Assoc(x, Lookup(list, n), Restore(k, list, z));
  }

  /** Two body-free texts joined where one of them has a character no
      placeholder uses next to the seam hold no body between them. */
  lemma NoBodyJoin(k: Kind, x: string, y: string)
    requires NoBody(k, x) && NoBody(k, y)
    requires (x != [] && !IsMarkChar(x[|x| - 1])) || (y != [] && !IsMarkChar(y[0]))
    ensures NoBody(k, x + y)
  {
    var w := |Name(k)|;
    forall q | 0 <= q < |x + y| ensures !BodyAt(k, x + y, q) {
      if |x| <= q {
        BodyInTail(k, x, y, q, q - |x|);
      } else if q + w + 2 <= |x| {
        assert (x + y)[0..|x|] == x;
        BodyInSlice(k, x + y, 0, |x|, q);
      } else if x != [] && !IsMarkChar(x[|x| - 1]) {
        BodyThrough(k, x + y, q, |x| - 1);
      } else {
        BodyThrough(k, x + y, q, |x|);
      }
    }
  }
}
