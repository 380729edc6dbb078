/**
 The JavaScript string primitives the pages rely on: `trim`, `toLowerCase`,
 `indexOf` / `includes`, `split(c)[0]` and the ordering used by `localeCompare`.
 A string is a sequence of Unicode scalar values; for text in the Basic
 Multilingual Plane that is one char per UTF-16 code unit.
 */
module JsText {
  import opened Wrappers

  // ---------------------------------------------------------------------------
  // trim
  // ---------------------------------------------------------------------------

  /** ECMAScript WhiteSpace and LineTerminator code points: what `trim` removes. */
  predicate IsSpace(c: char) {
    || c == '\t' || c == '\n' || c == '\U{000B}' || c == '\U{000C}' || c == '\r' || c == ' '
    || c == '\U{00A0}' || c == '\U{1680}' || ('\U{2000}' <= c <= '\U{200A}')
    || c == '\U{2028}' || c == '\U{2029}' || c == '\U{202F}' || c == '\U{205F}'
    || c == '\U{3000}' || c == '\U{FEFF}'
  }

  /** No whitespace at either end. */
  predicate IsTrimmed(s: string) {
    s == [] || (!IsSpace(s[0]) && !IsSpace(s[|s| - 1]))
  }

  /** Every char is whitespace: JavaScript treats `s.trim()` as falsy. */
  predicate IsBlank(s: string) {
    forall i :: 0 <= i < |s| ==> IsSpace(s[i])
  }

  /** `trimStart`: the suffix left after dropping leading whitespace. */
  function TrimStart(s: string): (r: string)
    ensures |r| <= |s|
    ensures forall i :: 0 <= i < |s| - |r| ==> IsSpace(s[i])
    ensures r == [] || !IsSpace(r[0])
  {
    if s != [] && IsSpace(s[0]) then TrimStart(s[1..]) else s
  }

  /** What `trimStart` keeps is the tail of `s`. */
  lemma {:induction false} TrimStartSuffix(s: string)
    ensures TrimStart(s) == s[|s| - |TrimStart(s)|..]
  {
    if s != [] && IsSpace(s[0]) {
      TrimStartSuffix(s[1..]);
    }
  }

  /** `trimEnd`: the prefix left after dropping trailing whitespace. */
  function TrimEnd(s: string): (r: string)
    ensures |r| <= |s| && r == s[..|r|]
    ensures forall i :: |r| <= i < |s| ==> IsSpace(s[i])
    ensures r == [] || !IsSpace(r[|r| - 1])
    ensures forall c :: c in r ==> c in s
  {
    if s != [] && IsSpace(s[|s| - 1]) then TrimEnd(s[..|s| - 1]) else s
  }

  /** `r` is `s[i..j]`, and everything in `s` outside it is whitespace. */
  predicate PieceBetweenSpaces(s: string, r: string, i: int, j: int) {
    && 0 <= i <= j <= |s| && r == s[i..j]
    && (forall k :: 0 <= k < i ==> IsSpace(s[k]))
    && (forall k :: j <= k < |s| ==> IsSpace(s[k]))
  }

  /** `trim`: a contiguous piece of `s` with whitespace on both sides removed. */
  function Trim(s: string): (r: string)
    ensures IsTrimmed(r)
    ensures |r| <= |s|
    ensures r == [] <==> IsBlank(s)
    ensures forall c :: c in r ==> c in s
  {
    var a := TrimStart(s);
    var r := TrimEnd(a);
    TrimStartSuffix(s);
    assert IsBlank(s) ==> a == [] by {
      if a != [] {
        assert a[0] == s[|s| - |a|];
      }
    }
    r
  }

  /** `trim` returns the piece of `s` between its leading and its trailing whitespace. */
  lemma TrimIsPiece(s: string)
    ensures exists i, j :: PieceBetweenSpaces(s, Trim(s), i, j)
  {
    var a := TrimStart(s);
    TrimSplit(s);
    TrimStartSuffix(s);
    TrimInfix(s, a, TrimEnd(a));
  }

  /**
   A tail of `s` after a whitespace run, cut before a whitespace run of its
   own, is the piece of `s` between the two runs; `trimStart` and then
   `trimEnd` keep such a piece.
   */
  lemma TrimInfix(s: string, a: string, r: string)
    requires |a| <= |s| && a == s[|s| - |a|..]
    requires forall k :: 0 <= k < |s| - |a| ==> IsSpace(s[k])
    requires |r| <= |a| && r == a[..|r|]
    requires forall k :: |r| <= k < |a| ==> IsSpace(a[k])
    ensures exists i, j :: PieceBetweenSpaces(s, r, i, j)
  {
    var i := |s| - |a|;
    var j := i + |r|;
    assert r == a[..|r|];
    assert r == s[i..j] by {
      assert a[..|r|] == s[i..][..|r|] == s[i..j];
    }
    assert forall k :: 0 <= k < i ==> IsSpace(s[k]);
    assert forall k :: j <= k < |s| ==> IsSpace(s[k]) by {
      forall k | j <= k < |s| ensures IsSpace(s[k]) {
        assert s[k] == a[k - i];
        assert |r| <= k - i < |a|;
      }
    }
    assert PieceBetweenSpaces(s, r, i, j);
  }

  /** `trim` is `trimEnd` after `trimStart`. */
  lemma TrimSplit(s: string)
    ensures Trim(s) == TrimEnd(TrimStart(s))
  {
  }

  /** Trimming a string that is already trimmed changes nothing. */
  lemma TrimTrimmed(s: string)
    requires IsTrimmed(s)
    ensures Trim(s) == s
  {
  }

  /** `trim` is idempotent. */
  lemma TrimIdempotent(s: string)
    ensures Trim(Trim(s)) == Trim(s)
  {
    TrimTrimmed(Trim(s));
  }

  /** Leading whitespace before a non-whitespace piece is all `trimStart` touches. */
  lemma {:induction false} TrimStartConcat(a: string, b: string)
    requires b != [] && !IsSpace(b[0])
    ensures TrimStart(a + b) == TrimStart(a) + b
  {
    if a == [] {
      assert a + b == b;
    } else {
      assert (a + b)[0] == a[0];
      assert (a + b)[1..] == a[1..] + b;
      TrimStartConcat(a[1..], b);
    }
  }

  /** Trailing whitespace after a non-whitespace char is all `trimEnd` touches. */
  lemma {:induction false} TrimEndConcat(a: string, b: string)
    requires b != [] && !IsSpace(b[0])
    ensures TrimEnd(a + b) == a + TrimEnd(b)
    decreases |b|
  {
    var ab := a + b;
    if IsSpace(b[|b| - 1]) {
      assert |b| > 1;
      assert ab[|ab| - 1] == b[|b| - 1];
      assert ab[..|ab| - 1] == a + b[..|b| - 1];
      TrimEndConcat(a, b[..|b| - 1]);
    } else {
      assert ab[|ab| - 1] == b[|b| - 1];
    }
  }

  /** Trimming `p + m + q` around a piece `m` with non-whitespace ends only touches `p` and `q`. */
  lemma TrimAround(p: string, m: string, q: string)
    requires m != [] && !IsSpace(m[0]) && !IsSpace(m[|m| - 1])
    requires q == [] || !IsSpace(q[0])
    ensures Trim(p + m + q) == TrimStart(p) + m + TrimEnd(q)
    ensures TrimEnd(q) == [] || TrimEnd(q)[0] == q[0]
  {
    var x := TrimStart(p) + m;
    LastOfConcat(TrimStart(p), m);
    TrimStartAround(p, m, q);
    TrimEndAround(x, q);
    TrimSplit(p + m + q);
  }

  lemma LastOfConcat<T>(a: seq<T>, b: seq<T>)
    requires b != []
    ensures a + b != [] && (a + b)[|a + b| - 1] == b[|b| - 1]
  {
  }

  /** `trimStart` of `p + m + q` only touches `p` when `m` starts with a non-space. */
  lemma TrimStartAround(p: string, m: string, q: string)
    requires m != [] && !IsSpace(m[0])
    ensures TrimStart(p + m + q) == TrimStart(p) + m + q
  {
    Assoc(p, m, q);
    TrimStartConcat(p, m + q);
    Assoc(TrimStart(p), m, q);
  }

  /** `trimEnd` of `x + q` only touches `q` when `x` ends with a non-space. */
  lemma TrimEndAround(x: string, q: string)
    requires x != [] && !IsSpace(x[|x| - 1])
    requires q == [] || !IsSpace(q[0])
    ensures TrimEnd(x + q) == x + TrimEnd(q)
    ensures TrimEnd(q) == [] || TrimEnd(q)[0] == q[0]
  {
    if q == [] {
      assert x + q == x;
    } else {
      TrimEndConcat(x, q);
    }
  }

  lemma Assoc<T>(a: seq<T>, b: seq<T>, c: seq<T>)
    ensures a + b + c == a + (b + c)
  {
  }

  // ---------------------------------------------------------------------------
  // toLowerCase
  // ---------------------------------------------------------------------------

  /** U+0130 LATIN CAPITAL LETTER I WITH DOT ABOVE: its lowercase is two code units. */
  const DottedCapitalI: char := '\U{0130}'

  /** U+212A KELVIN SIGN: its lowercase is the ASCII letter `k`. */
  const KelvinSign: char := '\U{212A}'

  /**
   The single-char part of lowercasing: ASCII capitals and the Kelvin sign map to
   their ASCII lowercase, every other char is kept.
   */
  function FoldChar(c: char): (r: char)
    ensures 'A' <= c <= 'Z' ==> r as int == c as int + 32
    ensures c == KelvinSign ==> r == 'k'
    ensures !('A' <= c <= 'Z') && c != KelvinSign ==> r == c
  {
    if 'A' <= c <= 'Z' then (c as int + 32) as char
    else if c == KelvinSign then 'k'
    else c
  }

  /** Lowercase of one char, as `toLowerCase` produces it. */
  function LowerChar(c: char): string {
    if c == DottedCapitalI then ['i', '\U{0307}'] else [FoldChar(c)]
  }

  /** `toLowerCase`. */
  function ToLower(s: string): string {
    if s == [] then [] else LowerChar(s[0]) + ToLower(s[1..])
  }

  /** Lowercasing that keeps every char in its place (no char expands). */
  function Fold(s: string): (r: string)
    ensures |r| == |s|
    ensures forall i :: 0 <= i < |s| ==> r[i] == FoldChar(s[i])
  {
    if s == [] then [] else [FoldChar(s[0])] + Fold(s[1..])
  }

  /** Folding commutes with dropping a prefix. */
  lemma FoldSuffix(s: string, d: nat)
    requires d <= |s|
    ensures Fold(s[d..]) == Fold(s)[d..]
  {
    assert s == s[..d] + s[d..];
    FoldConcat(s[..d], s[d..]);
  }

  /** Folding works char by char. */
  lemma FoldConcat(a: string, b: string)
    ensures Fold(a + b) == Fold(a) + Fold(b)
  {
    var l, r := Fold(a + b), Fold(a) + Fold(b);
    forall i | 0 <= i < |l|
      ensures l[i] == r[i]
    {
      if i < |a| {
        assert (a + b)[i] == a[i];
      } else {
        assert (a + b)[i] == b[i - |a|];
      }
    }
  }

  /** Folding commutes with taking a prefix. */
  lemma FoldPrefix(s: string, n: nat)
    requires n <= |s|
    ensures Fold(s[..n]) == Fold(s)[..n]
  {
    assert s == s[..n] + s[n..];
    FoldConcat(s[..n], s[n..]);
  }

  lemma {:induction false} FoldCharIdempotent(c: char)
    ensures FoldChar(FoldChar(c)) == FoldChar(c)
  {
  }

  /** A char that `toLowerCase` leaves alone. */
  predicate LowerFixed(c: char) {
    !('A' <= c <= 'Z') && c != KelvinSign && c != DottedCapitalI
  }

  /** Text with no upper-case letter lowercases to itself. */
  lemma {:induction false} ToLowerFixed(s: string)
    requires forall i :: 0 <= i < |s| ==> LowerFixed(s[i])
    ensures ToLower(s) == s
  {
    if s != [] {
      ToLowerFixed(s[1..]);
    }
  }

  lemma {:induction false} ToLowerConcat(a: string, b: string)
    ensures ToLower(a + b) == ToLower(a) + ToLower(b)
  {
    if a == [] {
      assert a + b == b;
    } else {
      assert (a + b)[0] == a[0];
      assert (a + b)[1..] == a[1..] + b;
      ToLowerConcat(a[1..], b);
    }
  }

  /** `toLowerCase` is idempotent. */
  lemma {:induction false} ToLowerIdempotent(s: string)
    ensures ToLower(ToLower(s)) == ToLower(s)
  {
    if s != [] {
      ToLowerIdempotent(s[1..]);
      ToLowerConcat(LowerChar(s[0]), ToLower(s[1..]));
      var c := s[0];
      if c == DottedCapitalI {
        var l := ['i', '\U{0307}'];
        assert l == ['i'] + ['\U{0307}'];
        ToLowerConcat(['i'], ['\U{0307}']);
        assert ToLower(['i']) == ['i'];
        assert ToLower(['\U{0307}']) == ['\U{0307}'];
      } else {
        FoldCharIdempotent(c);
        assert [FoldChar(c)][1..] == [];
        assert ToLower([FoldChar(c)]) == LowerChar(FoldChar(c)) + ToLower([]);
      }
    }
  }

  /** Lowercasing lengthens a string by one char per U+0130 and by nothing else. */
  lemma {:induction false} LowerLength(s: string)
    ensures |ToLower(s)| == |s| + CountChar(s, DottedCapitalI)
  {
    if s != [] {
      LowerLength(s[1..]);
    }
  }

  /** How many times `c` occurs in `s`. */
  function CountChar(s: string, c: char): nat {
    if s == [] then 0 else (if s[0] == c then 1 else 0) + CountChar(s[1..], c)
  }

  /** A char that does not occur is counted zero times. */
  lemma {:induction false} CountAbsent(s: string, c: char)
    requires c !in s
    ensures CountChar(s, c) == 0
  {
    if s != [] {
      assert s == [s[0]] + s[1..];
      CountAbsent(s[1..], c);
    }
  }

  /** Without U+0130 lowercasing keeps every char in its place. */
  lemma {:induction false} ToLowerIsFold(s: string)
    requires DottedCapitalI !in s
    ensures ToLower(s) == Fold(s)
  {
    if s != [] {
      assert s[0] in s;
      assert forall c :: c in s[1..] ==> c in s;
      ToLowerIsFold(s[1..]);
    }
  }

  // ---------------------------------------------------------------------------
  // indexOf, includes
  // ---------------------------------------------------------------------------

  /** `t` occurs in `s` starting at index `i`. */
  predicate OccursAt(s: string, t: string, i: int) {
    0 <= i && i + |t| <= |s| && s[i..i + |t|] == t
  }

  /** An occurrence at `j` in `s[d..]` is one at `j + d` in `s`. */
  lemma NotInSuffix(s: string, t: string, d: nat, j: int)
    requires d <= |s|
    requires !OccursAt(s, t, j + d)
    ensures !OccursAt(s[d..], t, j)
  {
    if 0 <= j && j + |t| <= |s| - d {
      assert s[d..][j..j + |t|] == s[j + d..j + d + |t|];
    }
  }

  /** An occurrence at `j` in a prefix of `s` is one at `j` in `s`. */
  lemma NotInPrefix(s: string, t: string, n: nat, j: int)
    requires n <= |s|
    requires !OccursAt(s, t, j)
    ensures !OccursAt(s[..n], t, j)
  {
    if 0 <= j && j + |t| <= n {
      assert s[..n][j..j + |t|] == s[j..j + |t|];
    }
  }

  /**
   A needle sharing no char with a non-empty `y` occurs in `x + y + z` only
   wholly inside `x` or wholly inside `z`.
   */
  lemma NoneAround(x: string, y: string, z: string, t: string, i: int)
    requires t != [] && y != []
    requires forall k :: 0 <= k < |y| ==> y[k] !in t
    requires !OccursAt(x, t, i) && !OccursAt(z, t, i - |x| - |y|)
    ensures !OccursAt(x + y + z, t, i)
  {
    var s := x + y + z;
    if 0 <= i && i + |t| <= |s| {
      if i + |t| <= |x| {
        assert s[i..i + |t|] == x[i..i + |t|];
      } else if i >= |x| + |y| {
        assert s[i..i + |t|] == z[i - |x| - |y|..i - |x| - |y| + |t|];
      } else {
        var k := if i < |x| then |x| else i;
        assert s[k] == y[k - |x|];
        assert s[i..i + |t|][k - i] == s[k];
      }
    }
  }

  /** The first occurrence of `t` in `s` at or after `k`. */
  function IndexFrom(s: string, t: string, k: nat): (r: Option<nat>)
    ensures r.Some? ==> k <= r.value && OccursAt(s, t, r.value)
    ensures r.Some? ==> forall j :: k <= j < r.value ==> !OccursAt(s, t, j)
    ensures r.None? ==> forall j :: k <= j ==> !OccursAt(s, t, j)
    decreases |s| - k
  {
    if k + |t| > |s| then None
    else if s[k..k + |t|] == t then Some(k)
    else IndexFrom(s, t, k + 1)
  }

  /** `s.indexOf(t)`, with `None` for JavaScript's `-1`. */
  function IndexOf(s: string, t: string): (r: Option<nat>)
    ensures r.Some? ==> OccursAt(s, t, r.value)
    ensures r.Some? ==> forall j :: 0 <= j < r.value ==> !OccursAt(s, t, j)
    ensures r.None? ==> forall j :: !OccursAt(s, t, j)
  {
    IndexFrom(s, t, 0)
  }

  /** `s.includes(t)`. */
  predicate Contains(s: string, t: string) {
    IndexOf(s, t).Some?
  }

  /** `includes` holds exactly when some occurrence exists. */
  lemma ContainsIff(s: string, t: string)
    ensures Contains(s, t) <==> exists i :: OccursAt(s, t, i)
  {
  }

  /** An occurrence of a longer needle contains an occurrence of its prefix. */
  lemma ContainsPrefix(s: string, t: string, p: string)
    requires p <= t
    requires Contains(s, t)
    ensures Contains(s, p)
  {
    var i := IndexOf(s, t).value;
    assert s[i..i + |p|] == s[i..i + |t|][..|p|];
    assert OccursAt(s, p, i);
  }

  // ---------------------------------------------------------------------------
  // split(c)[0]
  // ---------------------------------------------------------------------------

  /** `s.split(c)[0]`: the text before the first `c`, or all of `s`. */
  function BeforeFirst(s: string, c: char): (r: string)
    ensures c !in r
    ensures r <= s
    ensures |r| == |s| || s[|r|] == c
  {
    if s == [] || s[0] == c then [] else [s[0]] + BeforeFirst(s[1..], c)
  }

  /** Text without `c` followed by `c` or by nothing splits back to itself. */
  lemma {:induction false} BeforeFirstConcat(a: string, c: char, b: string)
    requires c !in a
    requires b == [] || b[0] == c
    ensures BeforeFirst(a + b, c) == a
  {
    var r := BeforeFirst(a + b, c);
    assert |r| == |a|;
    assert r == (a + b)[..|a|];
    assert (a + b)[..|a|] == a;
  }

  // ---------------------------------------------------------------------------
  // localeCompare, as code-point lexicographic order
  // ---------------------------------------------------------------------------

  /** `a` sorts at or before `b`. */
  predicate LexLe(a: string, b: string) {
    a == [] || (b != [] && (a[0] < b[0] || (a[0] == b[0] && LexLe(a[1..], b[1..]))))
  }

  lemma {:induction false} LexLeTotal(a: string, b: string)
    ensures LexLe(a, b) || LexLe(b, a)
  {
    if a != [] && b != [] && a[0] == b[0] {
      LexLeTotal(a[1..], b[1..]);
    }
  }

  lemma {:induction false} LexLeTransitive(a: string, b: string, c: string)
    requires LexLe(a, b) && LexLe(b, c)
    ensures LexLe(a, c)
  {
    if a != [] && b != [] && c != [] && a[0] == b[0] && b[0] == c[0] {
      LexLeTransitive(a[1..], b[1..], c[1..]);
    }
  }

  lemma {:induction false} LexLeAntisymmetric(a: string, b: string)
    requires LexLe(a, b) && LexLe(b, a)
    ensures a == b
  {
    if a != [] {
      LexLeAntisymmetric(a[1..], b[1..]);
      assert a == [a[0]] + a[1..];
      assert b == [b[0]] + b[1..];
    }
  }

  /** The empty string sorts before everything and only itself sorts before it. */
  lemma EmptyLexLeast(a: string)
    ensures LexLe([], a)
    ensures LexLe(a, []) <==> a == []
  {
  }
}
