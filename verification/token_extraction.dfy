/**
 `extractToken` of the owner history page: turns the route value of a
 `/owner/history/token/:value` lookup into the token sent to the server. The
 value is percent-decoded and trimmed, then read as a URL with a `token` query
 parameter, then scanned for a case-insensitive `token=`, and otherwise kept.
 */
module TokenExtraction {
  import opened Wrappers
  import opened JsText
  import JsUri

  /**
   `new URL(s).searchParams.get("token")`, which the model does not implement:
   `None` when `s` is not an absolute URL (the constructor throws) or has no
   `token` parameter, otherwise the parameter's decoded value.
   */
  type UrlTokenParam = string -> Option<string>

  /** The marker scanned for when the input is not a URL with a token parameter. */
  const TokenKey: string := "token="

  /** The URL parameter counts only when present and non-empty (`if (t)`). */
  predicate HasUrlToken(url: UrlTokenParam, s: string) {
    url(s).Some? && url(s).value != ""
  }

  /** A case-insensitive `token=` starts at index `i` of `s`. */
  predicate KeyAt(s: string, i: int) {
    OccursAt(Fold(s), TokenKey, i)
  }

  /** `i` is where the first case-insensitive `token=` in `s` starts. */
  predicate FirstKeyAt(s: string, i: nat) {
    i + |TokenKey| <= |s| && KeyAt(s, i) && forall j :: 0 <= j < i ==> !KeyAt(s, j)
  }

  /** Index of the first case-insensitive `token=` in `s`. */
  function FindKey(s: string): (r: Option<nat>)
    ensures r.Some? ==> KeyAt(s, r.value) && r.value + |TokenKey| <= |s|
    ensures r.Some? ==> forall j :: 0 <= j < r.value ==> !KeyAt(s, j)
    ensures r.None? ==> forall j :: !KeyAt(s, j)
  {
    IndexOf(Fold(s), TokenKey)
  }

  /** The text after a `token=` at `i`, up to the first `&`, trimmed. */
  function TokenAfterKey(s: string, i: nat): (r: string)
    requires i + |TokenKey| <= |s|
    ensures '&' !in r
    ensures IsTrimmed(r)
  {
    Trim(BeforeFirst(s[i + |TokenKey|..], '&'))
  }

  /** The first stage: `decodeURIComponent(input).trim()`; `None` where decoding throws. */
  function Prepare(input: string): (r: Option<string>)
    ensures r.None? <==> JsUri.DecodeComponent(input).None?
    ensures r.Some? ==> IsTrimmed(r.value)
  {
    match JsUri.DecodeComponent(input)
    case None => None
    case Some(decoded) => Some(Trim(decoded))
  }

  /** The second stage, on the prepared string `s`: URL parameter, then `token=` scan, then `s` itself. */
  function SelectToken(s: string, url: UrlTokenParam): (r: string)
    requires IsTrimmed(s)
    ensures IsTrimmed(r)
  {
    if HasUrlToken(url, s) then Trim(url(s).value)
    else match FindKey(s)
      case Some(i) => TokenAfterKey(s, i)
      case None => s
  }

  /**
   `extractToken(input)`; `None` where the call throws, which happens exactly when
   `decodeURIComponent` throws (it runs before the `try`).
   */
  function ExtractToken(input: string, url: UrlTokenParam): (r: Option<string>)
    ensures r.None? <==> JsUri.DecodeComponent(input).None?
    ensures r.Some? ==> IsTrimmed(r.value)
  {
    match Prepare(input)
    case None => None
    case Some(s) => Some(SelectToken(s, url))
  }

  // ---------------------------------------------------------------------------
  // The scan stage
  // ---------------------------------------------------------------------------

  /**
   Without a token parameter a `token=` anywhere, in any letter case, yields the text after its
   first occurrence up to the first `&`, trimmed: a string with no `&` and no
   surrounding whitespace.
   */
  lemma SelectFromKey(s: string, url: UrlTokenParam, i: nat)
    requires IsTrimmed(s)
    requires !HasUrlToken(url, s)
    requires KeyAt(s, i)
    requires forall j :: 0 <= j < i ==> !KeyAt(s, j)
    ensures i + |TokenKey| <= |s|
    ensures SelectToken(s, url) == Trim(BeforeFirst(s[i + |TokenKey|..], '&'))
    ensures '&' !in SelectToken(s, url)
  {
  }

  // ---------------------------------------------------------------------------
  // Round trips
  // ---------------------------------------------------------------------------

  /** A bare trimmed token with no `%`, no `token=` and no URL form maps to itself. */
  lemma BareTokenIsKept(t: string, url: UrlTokenParam)
    requires IsTrimmed(t) && '%' !in t
    requires forall j :: !KeyAt(t, j)
    requires !HasUrlToken(url, t)
    ensures ExtractToken(t, url) == Some(t)
  {
    JsUri.DecodeWithoutPercent(t);
    TrimTrimmed(t);
    assert Prepare(t) == Some(t);
  }

  /**
   The token of a QR link survives the percent-encoding the scanner applies before
   navigating: any trimmed token without `token=` and without URL form, `%` included.
   */
  lemma EncodedTokenIsRecovered(t: string, url: UrlTokenParam)
    requires IsTrimmed(t)
    requires forall j :: !KeyAt(t, j)
    requires !HasUrlToken(url, t)
    ensures ExtractToken(JsUri.EncodeComponent(t), url) == Some(t)
  {
    JsUri.DecodeEncode(t);
    TrimTrimmed(t);
    assert Prepare(JsUri.EncodeComponent(t)) == Some(t);
  }

  /** Every char of "token" folds to itself and none of them is `=`. */
  lemma KeyLetters()
    ensures Fold(TokenKey) == TokenKey
    ensures forall m :: 0 <= m < 5 ==> TokenKey[m] != '=' && FoldChar(TokenKey[m]) == TokenKey[m]
    ensures TokenKey[5] == '='
  {
  }

  /** A `token=` at `j < |x|` in `x + "token=" + rest` would lie inside `x`. */
  lemma NoKeyBeforeItsEnd(x: string, rest: string, j: nat)
    requires forall k :: !OccursAt(x, TokenKey, k)
    requires j < |x|
    ensures !OccursAt(x + TokenKey + rest, TokenKey, j)
  {
    if j + 6 <= |x| {
      NoKeyInsidePrefix(x, rest, j);
    } else {
      NoKeyAcrossPrefixEnd(x, rest, j);
    }
  }

  /** A window lying inside `x` reads as it does in `x`. */
  lemma NoKeyInsidePrefix(x: string, rest: string, j: nat)
    requires !OccursAt(x, TokenKey, j)
    requires j + 6 <= |x|
    ensures !OccursAt(x + TokenKey + rest, TokenKey, j)
  {
    var s := x + TokenKey + rest;
    assert s[j..j + 6] == x[j..j + 6];
  }

  /** A window that starts in `x` and ends in the key ends on a letter, not on `=`. */
  lemma NoKeyAcrossPrefixEnd(x: string, rest: string, j: nat)
    requires j < |x| < j + 6
    ensures !OccursAt(x + TokenKey + rest, TokenKey, j)
  {
    var s := x + TokenKey + rest;
    KeyLetters();
    var m := j + 5 - |x|;
    assert 0 <= m < 5;
    assert s[j + 5] == TokenKey[m];
    assert s[j..j + 6][5] == s[j + 5];
  }

  /**
   In `x + "token=" + rest` with no `token=` in `x`, the first `token=` is the
   one after `x`: it cannot straddle the end of `x`, because its only `=` is
   its last char.
   */
  lemma KeyFirstAfter(x: string, rest: string)
    requires forall j :: !OccursAt(x, TokenKey, j)
    ensures IndexOf(x + TokenKey + rest, TokenKey) == Some(|x|)
  {
    var s := x + TokenKey + rest;
    assert s[|x|..|x| + 6] == TokenKey;
    assert OccursAt(s, TokenKey, |x|);
    forall j | 0 <= j < |x| ensures !OccursAt(s, TokenKey, j) {
      NoKeyBeforeItsEnd(x, rest, j);
    }
  }

  /** The same for the case-insensitive search, in `p + "token=" + rest` with no key in `p`. */
  lemma FirstKeyAfterPrefix(p: string, rest: string)
    requires forall j :: !KeyAt(p, j)
    ensures FindKey(p + TokenKey + rest) == Some(|p|)
  {
    FoldConcat(p + TokenKey, rest);
    FoldConcat(p, TokenKey);
    KeyLetters();
    forall j ensures !OccursAt(Fold(p), TokenKey, j) {
      assert !KeyAt(p, j);
    }
    KeyFirstAfter(Fold(p), Fold(rest));
  }

  /** No key before index `n` of `s` means none in `s[..n]`. */
  lemma NoKeyInPrefix(s: string, n: nat)
    requires n <= |s|
    requires forall j :: 0 <= j < n ==> !KeyAt(s, j)
    ensures forall j :: !KeyAt(s[..n], j)
  {
    FoldPrefix(s, n);
    forall j ensures !KeyAt(s[..n], j) {
      if 0 <= j < n {
        assert !KeyAt(s, j);
        NotInPrefix(Fold(s), TokenKey, n, j);
      }
    }
  }

  /** No `token=` in `p` means none in any suffix of `p`. */
  lemma NoKeyInSuffix(p: string, d: nat)
    requires d <= |p|
    requires forall j :: !KeyAt(p, j)
    ensures forall j :: !KeyAt(p[d..], j)
  {
    FoldSuffix(p, d);
    forall j ensures !KeyAt(p[d..], j) {
      assert !KeyAt(p, j + d);
      NotInSuffix(Fold(p), TokenKey, d, j);
    }
  }

  /** Trimming a wrapped payload only eats into the text before and after it. */
  lemma TrimWrapped(p: string, t: string, q: string)
    requires IsTrimmed(t)
    requires q == [] || q[0] == '&'
    ensures Trim(p + TokenKey + t + q) == TrimStart(p) + TokenKey + (t + TrimEnd(q))
    ensures TrimEnd(q) == [] || TrimEnd(q)[0] == '&'
  {
    var m := TokenKey + t;
    assert m[0] == 't';
    assert m[|m| - 1] == (if t == [] then '=' else t[|t| - 1]);
    Regroup(p, TokenKey, t, q);
    TrimAround(p, m, q);
    Regroup(TrimStart(p), TokenKey, t, TrimEnd(q));
  }

  /** Regrouping a four-part concatenation. */
  lemma Regroup<T>(a: seq<T>, b: seq<T>, c: seq<T>, d: seq<T>)
    ensures a + b + c + d == a + (b + c) + d
    ensures a + (b + c) + d == a + b + (c + d)
  {
  }

  /** Dropping leading whitespace cannot create a `token=`. */
  lemma NoKeyInTrimStart(p: string)
    requires forall j :: !KeyAt(p, j)
    ensures forall j :: !KeyAt(TrimStart(p), j)
  {
    TrimStartSuffix(p);
    NoKeyInSuffix(p, |p| - |TrimStart(p)|);
  }

  /** On an input without `%` decoding is the identity, so only the trimmed input is scanned. */
  lemma ExtractWithoutPercent(w: string, url: UrlTokenParam)
    requires '%' !in w
    ensures ExtractToken(w, url) == Some(SelectToken(Trim(w), url))
  {
    JsUri.DecodeWithoutPercent(w);
  }

  /** The scan stage on an already trimmed wrapped payload. */
  lemma SelectWrapped(p: string, t: string, q: string, url: UrlTokenParam)
    requires IsTrimmed(p + TokenKey + (t + q))
    requires IsTrimmed(t) && '&' !in t
    requires q == [] || q[0] == '&'
    requires forall j :: !KeyAt(p, j)
    requires !HasUrlToken(url, p + TokenKey + (t + q))
    ensures SelectToken(p + TokenKey + (t + q), url) == t
  {
    var s := p + TokenKey + (t + q);
    FirstKeyAfterPrefix(p, t + q);
    assert s[|p| + |TokenKey|..] == t + q;
    BeforeFirstConcat(t, '&', q);
    TrimTrimmed(t);
  }

  /**
   Wrapping a token in a non-URL payload `p + "token=" + t + q` gives the token back
   when `p` holds no earlier `token=` and `q` is empty or starts a new `&` parameter.
   */
  lemma WrappedTokenIsRecovered(p: string, t: string, q: string, url: UrlTokenParam)
    requires '%' !in p && '%' !in t && '%' !in q
    requires IsTrimmed(t) && '&' !in t
    requires q == [] || q[0] == '&'
    requires forall j :: !KeyAt(p, j)
    requires !HasUrlToken(url, Trim(p + TokenKey + t + q))
    ensures ExtractToken(p + TokenKey + t + q, url) == Some(t)
  {
    var w := p + TokenKey + t + q;
    assert '%' !in w;
    ExtractWithoutPercent(w, url);
    TrimWrapped(p, t, q);
    NoKeyInTrimStart(p);
    SelectWrapped(TrimStart(p), t, TrimEnd(q), url);
  }

  // ---------------------------------------------------------------------------
  // The source's own offset computation
  // ---------------------------------------------------------------------------

  /** `s.substring(k)`: empty when `k` is past the end. */
  function SubstringFrom(s: string, k: nat): string {
    if k <= |s| then s[k..] else []
  }

  /** `s.substring(k).split("&")[0].trim()`. */
  function CutFrom(s: string, k: nat): string {
    Trim(BeforeFirst(SubstringFrom(s, k), '&'))
  }

  /**
   The second stage exactly as written: the index of `token=` is taken in
   `s.toLowerCase()` and then used to cut `s` itself.
   */
  function SelectTokenAsWritten(s: string, url: UrlTokenParam): (r: string)
    ensures IsTrimmed(s) ==> IsTrimmed(r)
    ensures !HasUrlToken(url, s) && Contains(ToLower(s), TokenKey) ==> '&' !in r
  {
    if HasUrlToken(url, s) then Trim(url(s).value)
    else match IndexOf(ToLower(s), TokenKey)
      case Some(i) => CutFrom(s, i + |TokenKey|)
      case None => s
  }

  /** `extractToken` exactly as written. */
  function ExtractTokenAsWritten(input: string, url: UrlTokenParam): (r: Option<string>)
    ensures r.None? <==> JsUri.DecodeComponent(input).None?
    ensures r.Some? ==> IsTrimmed(r.value)
  {
    match Prepare(input)
    case None => None
    case Some(s) => Some(SelectTokenAsWritten(s, url))
  }

  /**
   The two agree whenever the decoded input has no U+0130, the one char whose
   lowercase is longer than the char itself.
   */
  lemma AsWrittenAgrees(input: string, url: UrlTokenParam)
    requires JsUri.DecodeComponent(input).Some? ==> DottedCapitalI !in JsUri.DecodeComponent(input).value
    ensures ExtractTokenAsWritten(input, url) == ExtractToken(input, url)
  {
    if JsUri.DecodeComponent(input).Some? {
      var d := JsUri.DecodeComponent(input).value;
      ToLowerIsFold(Trim(d));
    }
  }

  /** A case-insensitive `token=` is six chars without U+0130 that lowercase to `token=`. */
  lemma LoweredKey(s: string, i: nat)
    requires KeyAt(s, i)
    ensures DottedCapitalI !in s[i..i + |TokenKey|]
    ensures ToLower(s[i..i + |TokenKey|]) == TokenKey
  {
    var k := s[i..i + 6];
    var f := Fold(s);
    forall m | 0 <= m < 6 ensures Fold(k)[m] == TokenKey[m] && k[m] != DottedCapitalI {
      assert k[m] == s[i + m];
      assert f[i..i + 6][m] == f[i + m];
    }
    assert Fold(k) == TokenKey;
    ToLowerIsFold(k);
  }

  /** A text without a case-insensitive `token=` has no `token=` in its lowercase either. */
  lemma {:induction false} NoKeyWhenLowered(s: string)
    requires forall j :: !KeyAt(s, j)
    ensures forall j :: !OccursAt(ToLower(s), TokenKey, j)
    decreases |s|
  {
    if DottedCapitalI !in s {
      ToLowerIsFold(s);
      forall j ensures !OccursAt(ToLower(s), TokenKey, j) {
        assert !KeyAt(s, j);
      }
    } else {
      var i :| 0 <= i < |s| && s[i] == DottedCapitalI;
      var a, b := s[..i], s[i + 1..];
      var y := ['i', '\U{0307}'];
      assert s == a + [DottedCapitalI] + b;
      ToLowerConcat(a + [DottedCapitalI], b);
      ToLowerConcat(a, [DottedCapitalI]);
      LowerDottedCapitalI();
      NoKeyInPrefix(s, i);
      NoKeyInSuffix(s, i + 1);
      NoKeyWhenLowered(a);
      NoKeyWhenLowered(b);
      DotNotInKey(y);
      forall j ensures !OccursAt(ToLower(s), TokenKey, j) {
        NoneAround(ToLower(a), y, ToLower(b), TokenKey, j);
      }
    }
  }

  /** Neither char of the lowercase of U+0130 occurs in `token=`. */
  lemma DotNotInKey(y: string)
    requires y == ['i', '\U{0307}']
    ensures forall k :: 0 <= k < |y| ==> y[k] !in TokenKey
  {
  }

  /**
   A non-empty `token` URL parameter wins over any `token=` in the text: the
   extraction as written gives it back trimmed.
   */
  lemma UrlTokenWinsAsWritten(input: string, url: UrlTokenParam)
    requires Prepare(input).Some? && HasUrlToken(url, Prepare(input).value)
    ensures ExtractTokenAsWritten(input, url) == Some(Trim(url(Prepare(input).value).value))
  {
  }

  /** The same priority holds in the corrected extraction. */
  lemma UrlTokenWins(input: string, url: UrlTokenParam)
    requires Prepare(input).Some? && HasUrlToken(url, Prepare(input).value)
    ensures ExtractToken(input, url) == Some(Trim(url(Prepare(input).value).value))
  {
  }

  /** As written, with neither a token parameter nor a `token=`, the prepared input comes back unchanged. */
  lemma AsWrittenFallback(s: string, url: UrlTokenParam)
    requires !HasUrlToken(url, s)
    requires forall j :: !KeyAt(s, j)
    ensures SelectTokenAsWritten(s, url) == s
  {
    NoKeyWhenLowered(s);
  }

  /** Around a case-insensitive `token=`, lowercasing leaves the key as `token=`. */
  lemma LowerAroundKey(s: string, i: nat)
    requires KeyAt(s, i)
    ensures ToLower(s) == ToLower(s[..i]) + TokenKey + ToLower(s[i + |TokenKey|..])
  {
    var a, k, b := s[..i], s[i..i + 6], s[i + 6..];
    assert s == a + k + b;
    LoweredKey(s, i);
    ToLowerConcat(a + k, b);
    ToLowerConcat(a, k);
  }

  /** In the lowercase text the first `token=` sits one place later per U+0130 before the key. */
  lemma LoweredKeyIndex(s: string, i: nat)
    requires FindKey(s) == Some(i)
    ensures IndexOf(ToLower(s), TokenKey) == Some(|ToLower(s[..i])|)
    ensures |ToLower(s[..i])| == i + CountChar(s[..i], DottedCapitalI)
  {
    LoweredKeyIndexAt(s, i);
    LowerLength(s[..i]);
  }

  /** `LoweredKeyIndex` for a key at `i` with none before it. */
  lemma LoweredKeyIndexAt(s: string, i: nat)
    requires FirstKeyAt(s, i)
    ensures IndexOf(ToLower(s), TokenKey) == Some(|ToLower(s[..i])|)
  {
    LowerAroundKey(s, i);
    LoweredPrefixKeyFree(s, i);
    KeyAfterLoweredPrefix(ToLower(s), ToLower(s[..i]), ToLower(s[i + |TokenKey|..]), |ToLower(s[..i])|);
  }

  /** Before the first case-insensitive `token=`, the lowercase holds no `token=`. */
  lemma LoweredPrefixKeyFree(s: string, i: nat)
    requires i <= |s|
    requires forall j :: 0 <= j < i ==> !KeyAt(s, j)
    ensures forall j :: !OccursAt(ToLower(s[..i]), TokenKey, j)
  {
    NoKeyInPrefix(s, i);
    NoKeyWhenLowered(s[..i]);
  }

  /** A lowered text that is a key-free `x`, the key and anything else finds the key at `|x|`. */
  lemma KeyAfterLoweredPrefix(l: string, x: string, rest: string, n: int)
    requires l == x + TokenKey + rest
    requires forall j :: !OccursAt(x, TokenKey, j)
    requires |x| == n
    ensures IndexOf(l, TokenKey) == Some(n)
  {
    KeyFirstAfter(x, rest);
  }

  /**
   As written, the cut after the first `token=` lands one char late for every
   U+0130 before the key: the index is found in the lowercase text, where each
   U+0130 has become two chars.
   */
  lemma AsWrittenCut(s: string, url: UrlTokenParam, i: nat)
    requires !HasUrlToken(url, s)
    requires FirstKeyAt(s, i)
    ensures SelectTokenAsWritten(s, url) == CutFrom(s, |ToLower(s[..i])| + |TokenKey|)
  {
    LoweredKeyIndexAt(s, i);
    CutAfterLoweredIndex(s, url, |ToLower(s[..i])|);
  }

  /** Within the text, the cut made as written is the token after the key. */
  lemma CutIsTokenAfterKey(s: string, i: nat)
    requires i + |TokenKey| <= |s|
    ensures CutFrom(s, i + |TokenKey|) == TokenAfterKey(s, i)
  {
  }

  /** As written, the cut is made in `s` at the index found in the lowercase text. */
  lemma CutAfterLoweredIndex(s: string, url: UrlTokenParam, n: nat)
    requires !HasUrlToken(url, s)
    requires IndexOf(ToLower(s), TokenKey) == Some(n)
    ensures SelectTokenAsWritten(s, url) == CutFrom(s, n + |TokenKey|)
  {
  }

  /** The scan as written and the corrected scan agree unless a U+0130 precedes the first `token=`. */
  lemma SelectAgreement(s: string, url: UrlTokenParam)
    requires IsTrimmed(s)
    requires FindKey(s).Some? ==> DottedCapitalI !in s[..FindKey(s).value]
    ensures SelectTokenAsWritten(s, url) == SelectToken(s, url)
  {
    if !HasUrlToken(url, s) {
      if FindKey(s).Some? {
        var i := FindKey(s).value;
        assert IndexOf(ToLower(s), TokenKey) == Some(i) by {
          LoweredKeyIndexAt(s, i);
          LowerLength(s[..i]);
          CountAbsent(s[..i], DottedCapitalI);
        }
        CutAfterLoweredIndex(s, url, i);
        CutIsTokenAfterKey(s, i);
        assert SelectToken(s, url) == TokenAfterKey(s, i);
      } else {
        AsWrittenFallback(s, url);
      }
    }
  }

  /** As written, too, a scanned token survives the percent-encoding of the route. */
  lemma EncodedTokenIsRecoveredAsWritten(t: string, url: UrlTokenParam)
    requires IsTrimmed(t)
    requires forall j :: !KeyAt(t, j)
    requires !HasUrlToken(url, t)
    ensures ExtractTokenAsWritten(JsUri.EncodeComponent(t), url) == Some(t)
  {
    JsUri.DecodeEncode(t);
    TrimTrimmed(t);
    assert Prepare(JsUri.EncodeComponent(t)) == Some(t);
    AsWrittenFallback(t, url);
  }

  /**
   As written, a wrapped token comes back too when no U+0130 precedes the key;
   U+0130 in the token or after it does no harm.
   */
  lemma WrappedTokenIsRecoveredAsWritten(p: string, t: string, q: string, url: UrlTokenParam)
    requires '%' !in p && '%' !in t && '%' !in q
    requires IsTrimmed(t) && '&' !in t
    requires q == [] || q[0] == '&'
    requires forall j :: !KeyAt(p, j)
    requires DottedCapitalI !in p
    requires !HasUrlToken(url, Trim(p + TokenKey + t + q))
    ensures ExtractTokenAsWritten(p + TokenKey + t + q, url) == Some(t)
  {
    var w := p + TokenKey + t + q;
    assert '%' !in w;
    assert SelectToken(Trim(w), url) == t by {
      WrappedTokenIsRecovered(p, t, q, url);
      ExtractWithoutPercent(w, url);
    }
    assert SelectTokenAsWritten(Trim(w), url) == SelectToken(Trim(w), url) by {
      WrappedKeyPrefix(p, t, q);
      SelectAgreement(Trim(w), url);
    }
    AsWrittenWithoutPercent(w, url);
  }

  /** Without `%`, decoding changes nothing and the extraction as written is its scan of the trimmed input. */
  lemma AsWrittenWithoutPercent(w: string, url: UrlTokenParam)
    requires '%' !in w
    ensures ExtractTokenAsWritten(w, url) == Some(SelectTokenAsWritten(Trim(w), url))
  {
    JsUri.DecodeWithoutPercent(w);
  }

  /** In the trimmed wrapped payload the text before the first key is `p` without its leading blanks. */
  lemma WrappedKeyPrefix(p: string, t: string, q: string)
    requires IsTrimmed(t)
    requires q == [] || q[0] == '&'
    requires forall j :: !KeyAt(p, j)
    requires DottedCapitalI !in p
    ensures FindKey(Trim(p + TokenKey + t + q)).Some?
    ensures DottedCapitalI !in Trim(p + TokenKey + t + q)[..FindKey(Trim(p + TokenKey + t + q)).value]
  {
    TrimWrapped(p, t, q);
    NoKeyInTrimStart(p);
    var x := TrimStart(p);
    FirstKeyAfterPrefix(x, t + TrimEnd(q));
    assert (x + TokenKey + (t + TrimEnd(q)))[..|x|] == x;
    NotInTrimStart(p, DottedCapitalI);
  }

  /** `trimStart` adds no char. */
  lemma NotInTrimStart(p: string, c: char)
    requires c !in p
    ensures c !in TrimStart(p)
  {
    var x := TrimStart(p);
    TrimStartSuffix(p);
    forall m | 0 <= m < |x| ensures x[m] != c {
      assert x[m] == p[|p| - |x| + m];
    }
  }

  /** No URL form: the constant oracle. */
  function NoUrl(s: string): Option<string> {
    None
  }

  /** The lowercase of the example payload "İtoken=abc" is one char longer. */
  lemma ExampleLower(s: string, l: string)
    requires s == [DottedCapitalI] + TokenKey + "abc"
    requires l == ['i', '\U{0307}'] + TokenKey + "abc"
    ensures ToLower(s) == l
  {
    var tail := TokenKey + "abc";
    Assoc([DottedCapitalI], TokenKey, "abc");
    Assoc(['i', '\U{0307}'], TokenKey, "abc");
    ToLowerConcat([DottedCapitalI], tail);
    LowerDottedCapitalI();
    ExampleTailLower(tail);
  }

  lemma LowerDottedCapitalI()
    ensures ToLower([DottedCapitalI]) == ['i', '\U{0307}']
  {
    assert [DottedCapitalI][1..] == [];
  }

  /** "token=abc" is already lowercase. */
  lemma ExampleTailLower(tail: string)
    requires tail == TokenKey + "abc"
    ensures ToLower(tail) == tail
  {
    ToLowerFixed(tail);
  }

  /** The lowercase payload already folds to itself, so its first `token=` is at 2. */
  lemma ExampleLowerIndex(l: string)
    requires l == ['i', '\U{0307}'] + TokenKey + "abc"
    ensures IndexOf(l, TokenKey) == Some(2)
  {
    KeyFirstAfter(['i', '\U{0307}'], "abc");
  }

  /** The example payload decodes to itself. */
  lemma ExamplePrepared(s: string)
    requires s == [DottedCapitalI] + TokenKey + "abc"
    ensures Prepare(s) == Some(s)
  {
    assert '%' !in s;
    JsUri.DecodeWithoutPercent(s);
    TrimTrimmed(s);
  }

  /** The cut as written lands one char late. */
  lemma ExampleAsWritten(s: string)
    requires s == [DottedCapitalI] + TokenKey + "abc"
    ensures SelectTokenAsWritten(s, NoUrl) == "bc"
  {
    var l := ['i', '\U{0307}'] + TokenKey + "abc";
    ExampleLower(s, l);
    ExampleLowerIndex(l);
    var rest := SubstringFrom(s, 8);
    assert rest == "bc";
    BeforeFirstConcat(rest, '&', []);
    assert rest + [] == rest;
    TrimTrimmed(rest);
  }

  /** The corrected scan finds `token=` right after the first char. */
  lemma ExampleCorrected(s: string)
    requires s == [DottedCapitalI] + TokenKey + "abc"
    ensures SelectToken(s, NoUrl) == "abc"
  {
    FirstKeyAfterPrefix([DottedCapitalI], "abc");
    ExampleRest(s);
    ExampleTokenKept(s[7..]);
  }

  /** What follows the key in the example payload. */
  lemma ExampleRest(s: string)
    requires s == [DottedCapitalI] + TokenKey + "abc"
    ensures s[7..] == "abc"
  {
  }

  /** "abc" has no `&` and no surrounding whitespace, so the cut keeps all of it. */
  lemma ExampleTokenKept(rest: string)
    requires rest == "abc"
    ensures Trim(BeforeFirst(rest, '&')) == rest
  {
    BeforeFirstConcat(rest, '&', []);
    assert rest + [] == rest;
    TrimTrimmed(rest);
  }

  /**
   The discrepancy: in "İtoken=abc" the lowercase form is one char longer before
   `token=`, so the cut lands one char late and the token loses its first char.
   */
  lemma AsWrittenDropsTokenChar()
    ensures ExtractTokenAsWritten("\U{0130}token=abc", NoUrl) == Some("bc")
    ensures ExtractToken("\U{0130}token=abc", NoUrl) == Some("abc")
  {
    var s := "\U{0130}token=abc";
    assert s == [DottedCapitalI] + TokenKey + "abc";
    ExamplePrepared(s);
    ExampleAsWritten(s);
    ExampleCorrected(s);
  }
}
