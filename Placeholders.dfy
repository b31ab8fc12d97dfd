/** The placeholders `__COMMENT_k__` and `__STRING_k__` that stand in for a
    masked span, and the restoring pass that puts the spans back
    (src/transformer.ts:89, 95, 101, 107, 121, 124). */
module Placeholders {
  import opened Text

  /** The two counters of the rewriter: comments (block and line) and
      string-like literals (templates and quoted strings). */
  datatype Kind = Comment | Str

  function Name(k: Kind): (name: string)
    ensures |name| >= 6
    ensures forall i :: 0 <= i < |name| ==> 'A' <= name[i] <= 'Z'
    ensures forall i :: 1 <= i < |name| ==> name[i] != name[0]
  {
    match k
    case Comment => "COMMENT"
    case Str => "STRING"
  }

  /** What the restoring regex must see before the digits: `__KIND_`. */
  function Header(k: Kind): (h: string)
    ensures |h| == |Name(k)| + 3
  {
    "__" + Name(k) + "_"
  }

  /** The placeholder written for the span with index `n` in its kind's list. */
  function Placeholder(k: Kind, n: nat): (p: string)
    ensures |p| == |Header(k)| + |NatToDecimal(n)| + 2
    ensures p[..|Header(k)|] == Header(k)
    ensures p[|Header(k)|..|p| - 2] == NatToDecimal(n)
    ensures p[|p| - 2] == '_' && p[|p| - 1] == '_'
  {
    Header(k) + NatToDecimal(n) + "__"
  }

  /** A character that can occur in a placeholder of either kind. */
  predicate IsMarkChar(c: char) {
    c == '_' || IsDigit(c) || 'A' <= c <= 'Z'
  }

  /** No character of `w` can occur in a placeholder. */
  predicate MarkFree(w: string) {
    forall j :: 0 <= j < |w| ==> !IsMarkChar(w[j])
  }

  predicate AllDigits(x: string) {
    forall i :: 0 <= i < |x| ==> IsDigit(x[i])
  }

  /** `t[..m]` is text the regex `/__KIND_(\d+)__/` matches at position 0. */
  predicate IsMarkPrefix(k: Kind, t: string, m: int) {
    var h := |Header(k)|;
    h < m - 2 && m <= |t| && t[..h] == Header(k) && AllDigits(t[h..m - 2])
    && t[m - 2] == '_' && t[m - 1] == '_'
  }

  /** The body `KIND_d` of a placeholder (its name, an underscore and a digit)
      occurs in `x` at position `q`. */
  predicate BodyAt(k: Kind, x: string, q: int) {
    var w := |Name(k)|;
    0 <= q && q + w + 2 <= |x| && x[q..q + w] == Name(k) && x[q + w] == '_' && IsDigit(x[q + w + 1])
  }

  /** No text in `x` looks like the body of a placeholder of kind `k`. */
  predicate NoBody(k: Kind, x: string) {
    forall q :: 0 <= q < |x| ==> !BodyAt(k, x, q)
  }

  /** End of the run of digits in `t` that starts at `j`. */
  function DigitRunEnd(t: string, j: nat): (e: nat)
    requires j <= |t|
    ensures j <= e <= |t|
    ensures forall q :: j <= q < e ==> IsDigit(t[q])
    ensures e == |t| || !IsDigit(t[e])
    decreases |t| - j
  {
    if j == |t| || !IsDigit(t[j]) then j else DigitRunEnd(t, j + 1)
  }

  datatype Mark = Mark(index: nat, len: nat)

  /** Whether the restoring regex for kind `k` matches at the start of `t`:
      the index it reads (`parseInt` of the digits) and the match length. */
  function MarkAt(k: Kind, t: string): (r: Option<Mark>)
    ensures r.Some? ==> IsMarkPrefix(k, t, r.value.len)
    ensures r.Some? ==> r.value.index == DecimalValue(t[|Header(k)|..r.value.len - 2])
    ensures r.None? ==> forall m :: !IsMarkPrefix(k, t, m)
  {
    var h := Header(k);
    if |h| <= |t| && t[..|h|] == h then
      var e := DigitRunEnd(t, |h|);
      if |h| < e && e + 2 <= |t| && t[e] == '_' && t[e + 1] == '_' then
        Some(Mark(DecimalValue(t[|h|..e]), e + 2))
      else
        NoMarkPrefix(k, t);
        None
    else
      NoMarkPrefix(k, t);
      None
  }

  /** The digits of a match run up to the first underscore of its `__`. */
  lemma RunEndAtMark(k: Kind, t: string, m: int)
    requires IsMarkPrefix(k, t, m)
    ensures DigitRunEnd(t, |Header(k)|) == m - 2
  {
  }

  /** Where the header, the digits or the closing `__` are missing, no
      length matches. */
  lemma NoMarkPrefix(k: Kind, t: string)
    requires var h := |Header(k)|;
      !(h <= |t| && t[..h] == Header(k) && h < DigitRunEnd(t, h) && DigitRunEnd(t, h) + 2 <= |t|
        && t[DigitRunEnd(t, h)] == '_' && t[DigitRunEnd(t, h) + 1] == '_')
    ensures forall m :: !IsMarkPrefix(k, t, m)
  {
    forall m ensures !IsMarkPrefix(k, t, m) {
      if IsMarkPrefix(k, t, m) {
        RunEndAtMark(k, t, m);
      }
    }
  }

  /** What the restoring callback `(_, i) => list[parseInt(i)]` puts in: the
      entry at the index, or, past the end of the list, the value
      `undefined`, which `String.prototype.replace` turns into the text
      `undefined`. */
  function Lookup(list: seq<string>, v: nat): (r: string)
    ensures v < |list| ==> r == list[v]
    ensures v >= |list| ==> r == "undefined"
  {
    if v < |list| then list[v] else "undefined"
  }

  /** `t.replace(/__KIND_(\d+)__/g, (_, i) => list[parseInt(i)])`: one left-to-right
      pass; the text put in is never scanned again. */
  function Restore(k: Kind, list: seq<string>, t: string): string
    decreases |t|
  {
    if t == [] then []
    else match MarkAt(k, t)
      case Some(mk) => Lookup(list, mk.index) + Restore(k, list, t[mk.len..])
      case None => [t[0]] + Restore(k, list, t[1..])
  }

  // ---------------------------------------------------------------------
  // Facts about single placeholders

  /** Only one length can match at a given position: the digits end at the
      first underscore. */
  lemma MarkPrefixUnique(k: Kind, t: string, m1: int, m2: int)
    requires IsMarkPrefix(k, t, m1) && IsMarkPrefix(k, t, m2)
    ensures m1 == m2
  {
  }

  /** A placeholder is read back as exactly itself with its own index,
      whatever follows it. */
  lemma PlaceholderMark(k: Kind, n: nat, y: string)
    ensures MarkAt(k, Placeholder(k, n) + y) == Some(Mark(n, |Placeholder(k, n)|))
  {
    var p := Placeholder(k, n);
    var t := p + y;
    var h := |Header(k)|;
    assert t[..|p|] == p;
    assert t[..h] == p[..h];
    assert t[h..|p| - 2] == NatToDecimal(n);
    assert IsMarkPrefix(k, t, |p|);
    var r := MarkAt(k, t);
    assert r.Some?;
    MarkPrefixUnique(k, t, r.value.len, |p|);
    DecimalRoundTrip(n);
  }

  /** What follows a match does not change it. */
  lemma MarkExtend(k: Kind, t: string, u: string)
    requires MarkAt(k, t).Some?
    ensures MarkAt(k, t + u) == MarkAt(k, t)
  {
    var m := MarkAt(k, t).value.len;
    var h := |Header(k)|;
    var tu := t + u;
    assert tu[..h] == t[..h];
    assert tu[h..m - 2] == t[h..m - 2];
    assert IsMarkPrefix(k, tu, m);
    MarkPrefixUnique(k, tu, MarkAt(k, tu).value.len, m);
  }

  /** A match that ends within `t` is already a match of `t` alone. */
  lemma MarkTrim(k: Kind, t: string, u: string)
    requires MarkAt(k, t + u).Some? && MarkAt(k, t + u).value.len <= |t|
    ensures MarkAt(k, t) == MarkAt(k, t + u)
  {
    var m := MarkAt(k, t + u).value.len;
    var h := |Header(k)|;
    var tu := t + u;
    assert tu[..h] == t[..h];
    assert tu[h..m - 2] == t[h..m - 2];
    assert IsMarkPrefix(k, t, m);
    MarkPrefixUnique(k, t, MarkAt(k, t).value.len, m);
  }

  function Other(k: Kind): Kind {
    if k == Comment then Str else Comment
  }

  /** The characters of a header, position by position. */
  lemma HeaderChars(k: Kind)
    ensures forall q :: 0 <= q < |Header(k)| ==> IsMarkChar(Header(k)[q])
    ensures forall q :: 0 <= q < |Header(k)| && Header(k)[q] == Name(k)[0] ==> q == 2
    ensures forall q :: 0 <= q < |Header(k)| ==> Header(k)[q] != Name(Other(k))[0]
    ensures forall q :: 0 <= q < |Name(k)| ==> Header(k)[q + 2] == Name(k)[q]
    ensures Header(k)[0] == '_' && Header(k)[1] == '_' && Header(k)[|Name(k)| + 2] == '_'
  {
    match k
    case Comment => assert Header(k) == "__COMMENT_";
    case Str => assert Header(k) == "__STRING_";
  }

  /** Every character of a match is a placeholder character, and the match
      holds a body at offset 2. */
  lemma MarkShape(k: Kind, t: string)
    requires MarkAt(k, t).Some?
    ensures var m := MarkAt(k, t).value.len;
      m >= |Name(k)| + 6 && (forall q :: 0 <= q < m ==> IsMarkChar(t[q])) && BodyAt(k, t, 2)
  {
    var m := MarkAt(k, t).value.len;
    var h := |Header(k)|;
    var w := |Name(k)|;
    HeaderChars(k);
    forall q | 0 <= q < m ensures IsMarkChar(t[q]) {
      if q < h {
        assert t[..h][q] == t[q];
      } else if q < m - 2 {
        assert t[h..m - 2][q - h] == t[q];
      }
    }
    forall q | 0 <= q < w ensures t[2 + q] == Name(k)[q] {
      assert t[..h][2 + q] == t[2 + q];
    }
    assert t[2..2 + w] == Name(k);
    assert t[..h][2 + w] == t[2 + w];
    assert t[h..m - 2][0] == t[2 + w + 1];
  }

  /** Facts about the characters of a placeholder: it begins with two
      underscores, and the first letter of its own kind's name appears only
      at offset 2 while the first letter of the other kind's name is absent. */
  lemma PlaceholderChars(k: Kind, n: nat)
    ensures var p := Placeholder(k, n);
      p[0] == '_' && p[1] == '_' && p[2] == Name(k)[0]
      && (forall q :: 0 <= q < |p| ==> IsMarkChar(p[q]))
      && (forall q :: 0 <= q < |p| && p[q] == Name(k)[0] ==> q == 2)
      && (forall q :: 0 <= q < |p| ==> p[q] != Name(Other(k))[0])
  {
    var p := Placeholder(k, n);
    var h := |Header(k)|;
    HeaderChars(k);
    forall q | 0 <= q < |p|
      ensures IsMarkChar(p[q])
      ensures p[q] == Name(k)[0] ==> q == 2
      ensures p[q] != Name(Other(k))[0]
    {
      if q < h {
        assert p[..h][q] == p[q];
      } else if q < |p| - 2 {
        assert p[h..|p| - 2][q - h] == p[q];
      }
    }
    assert p[..h][0] == p[0] && p[..h][1] == p[1] && p[..h][2] == p[2];
  }

  // ---------------------------------------------------------------------
  // Facts about the restoring pass

  /** Text with no placeholder body in it comes through restoration as it is. */
  lemma {:induction false} RestoreIdentity(k: Kind, list: seq<string>, t: string)
    requires NoBody(k, t)
    ensures Restore(k, list, t) == t
  {
    if t != [] {
      if MarkAt(k, t).Some? {
        MarkShape(k, t);
        assert false;
      }
      assert NoBody(k, t[1..]) by {
        forall q | 0 <= q < |t[1..]| ensures !BodyAt(k, t[1..], q) {
          if BodyAt(k, t[1..], q) {
            assert t[1..][q..q + |Name(k)|] == t[q + 1..q + 1 + |Name(k)|];
            assert BodyAt(k, t, q + 1);
          }
        }
      }
      RestoreIdentity(k, list, t[1..]);
    }
  }

  /** One step of the restoring pass over a character no match starts at. */
  lemma RestoreCopy(k: Kind, list: seq<string>, t: string)
    requires t != [] && MarkAt(k, t).None?
    ensures Restore(k, list, t) == [t[0]] + Restore(k, list, t[1..])
  {
  }

  /** One step of the restoring pass over a match. */
  lemma RestoreMark(k: Kind, list: seq<string>, t: string)
    requires MarkAt(k, t).Some?
    ensures Restore(k, list, t) == Lookup(list, MarkAt(k, t).value.index) + Restore(k, list, t[MarkAt(k, t).value.len..])
  {
  }

  /** No restoring match starts at position `q` of `t`. */
  predicate NoMarkAt(k: Kind, t: string, q: nat)
    requires q <= |t|
  {
    MarkAt(k, t[q..]).None?
  }

  /** Dropping the first character keeps "no match starts here" at every
      later position. */
  lemma NoMarkAtShift(k: Kind, x: string, y: string)
    requires x != []
    requires forall q :: 0 <= q < |x| ==> NoMarkAt(k, x + y, q)
    ensures forall q :: 0 <= q < |x[1..]| ==> NoMarkAt(k, x[1..] + y, q)
  {
    var t := x + y;
    forall q | 0 <= q < |x[1..]| ensures NoMarkAt(k, x[1..] + y, q) {
      assert NoMarkAt(k, t, q + 1);
      assert (x[1..] + y)[q..] == t[q + 1..];
    }
  }

  /** A stretch in which no placeholder starts is copied through unchanged. */
  lemma {:induction false} RestoreThrough(k: Kind, list: seq<string>, x: string, y: string)
    requires forall q :: 0 <= q < |x| ==> NoMarkAt(k, x + y, q)
    ensures Restore(k, list, x + y) == x + Restore(k, list, y)
  {
    if x != [] {
      var t := x + y;
      ConsSplit(x, y);
      assert t[0..] == t;
      assert NoMarkAt(k, t, 0);
      RestoreCopy(k, list, t);
      NoMarkAtShift(k, x, y);
      RestoreThrough(k, list, x[1..], y);
      ConsJoin(x[0], x[1..], x, Restore(k, list, y), Restore(k, list, x[1..] + y), Restore(k, list, t));
    } else {
      assert x + y == y;
    }
  }

  /** A text that is one placeholder is restored to the entry it names. */
  lemma RestorePlaceholder(k: Kind, list: seq<string>, n: nat)
    ensures Restore(k, list, Placeholder(k, n)) == Lookup(list, n)
  {
    var p := Placeholder(k, n);
    PlaceholderMark(k, n, []);
    assert p + [] == p;
    RestoreMark(k, list, p);
    assert p[|p|..] == [];
  }

  /** A body past the end of `a` is a body of `b`, and back. */
  lemma BodyInTail(k: Kind, a: string, b: string, q: int, r: int)
    requires |a| <= q && r == q - |a|
    ensures BodyAt(k, a + b, q) <==> BodyAt(k, b, r)
  {
    var w := |Name(k)|;
    if q + w + 2 <= |a + b| {
      assert (a + b)[q..q + w] == b[q - |a|..q - |a| + w];
    }
  }

  /** A body starts with the first letter of its kind's name. */
  lemma BodyFirstChar(k: Kind, t: string, q: nat)
    requires BodyAt(k, t, q)
    ensures t[q] == Name(k)[0]
  {
    assert t[q..q + |Name(k)|][0] == t[q];
  }

  /** Every character of a body is a placeholder character. */
  lemma BodyMarkChars(k: Kind, x: string, q: nat)
    requires BodyAt(k, x, q)
    ensures forall j :: q <= j < q + |Name(k)| + 2 ==> IsMarkChar(x[j])
  {
    var w := |Name(k)|;
    forall j | q <= j < q + w ensures IsMarkChar(x[j]) {
      assert x[q..q + w][j - q] == x[j];
    }
  }

  /** A character no placeholder uses cannot sit inside a body. */
  lemma BodyThrough(k: Kind, x: string, q: nat, j: nat)
    requires q <= j < |x| && j < q + |Name(k)| + 2 && !IsMarkChar(x[j])
    ensures !BodyAt(k, x, q)
  {
    if BodyAt(k, x, q) {
      BodyMarkChars(k, x, q);
      assert false;
    }
  }

  /** No body starts at a character other than the first letter of its
      kind's name. */
  lemma BodyNotAt(k: Kind, x: string, q: nat)
    requires q < |x| && x[q] != Name(k)[0]
    ensures !BodyAt(k, x, q)
  {
    if q + |Name(k)| <= |x| {
      assert x[q..q + |Name(k)|][0] == x[q];
    }
  }

  /** Two underscores in a row cannot sit inside a body, nor can an
      underscore end one. */
  lemma UnderscoresNotBody(k: Kind, x: string, q: nat, j: nat)
    requires q <= j && j + 1 < |x| && j < q + |Name(k)| + 2 && x[j] == '_' && x[j + 1] == '_'
    ensures !BodyAt(k, x, q)
  {
    var w := |Name(k)|;
    if j < q + w && q + w <= |x| {
      assert x[q..q + w][j - q] == x[j];
    }
  }

  /** Text that agrees with a body, character by character, holds that body
      at the same place. */
  lemma BodySame(k: Kind, x: string, y: string)
    requires BodyAt(k, x, 0) && |Name(k)| + 2 <= |y|
    requires forall j :: 0 <= j < |Name(k)| + 2 ==> x[j] == y[j]
    ensures BodyAt(k, y, 0)
  {
    var w := |Name(k)|;
    assert y[0..w] == x[0..w];
  }

  /** What follows a body-free prefix of `d` characters is body-free too. */
  lemma NoBodySuffix(k: Kind, x: string, d: nat)
    requires d <= |x| && NoBody(k, x)
    ensures NoBody(k, x[d..])
  {
    forall q | 0 <= q < |x[d..]| ensures !BodyAt(k, x[d..], q) {
      assert x == x[..d] + x[d..];
      BodyInTail(k, x[..d], x[d..], q + d, q);
    }
  }

  /** Text without capital letters holds no placeholder body of either kind. */
  predicate NoCapitals(t: string) {
    forall q :: 0 <= q < |t| ==> !('A' <= t[q] <= 'Z')
  }

  lemma NoCapitalsNoBody(k: Kind, t: string)
    requires NoCapitals(t)
    ensures NoBody(k, t)
  {
    forall q | 0 <= q < |t| ensures !BodyAt(k, t, q) {
      if q + |Name(k)| <= |t| {
        assert t[q..q + |Name(k)|][0] == t[q];
      }
    }
  }

  /** Text without the first letter of a kind's name holds no body of it. */
  lemma MissingInitial(k: Kind, t: string)
    requires forall q :: 0 <= q < |t| ==> t[q] != Name(k)[0]
    ensures NoBody(k, t)
  {
    forall q | 0 <= q < |t| ensures !BodyAt(k, t, q) {
      if q + |Name(k)| <= |t| {
        assert t[q..q + |Name(k)|][0] == t[q];
      }
    }
  }

  /** Text without underscores before a placeholder is copied, and the
      placeholder restored. */
  lemma RestoreAfterPrefix(k: Kind, list: seq<string>, x: string, n: nat)
    requires forall q :: 0 <= q < |x| ==> x[q] != '_'
    ensures Restore(k, list, x + Placeholder(k, n)) == x + Lookup(list, n)
  {
    var p := Placeholder(k, n);
    HeaderChars(k);
    forall q | 0 <= q < |x| ensures NoMarkAt(k, x + p, q) {
      var t := (x + p)[q..];
      assert t[0] == x[q];
      if |Header(k)| <= |t| {
        assert t[..|Header(k)|][0] == t[0];
      }
    }
    RestoreThrough(k, list, x, p);
    RestorePlaceholder(k, list, n);
  }
}
