/**
 The owner's service-history page, `/owner/history/:kind/:value`: the value
 shown in the header, the lookup it triggers, the identifier used in the PDF
 report's file name, and the paging of the history table.
 */
module OwnerHistoryPage {
  import opened Wrappers
  import opened JsText
  import JsUri
  import opened Forms
  import opened TokenExtraction

  // ---------------------------------------------------------------------------
  // Header value and lookup
  // ---------------------------------------------------------------------------

  /**
   `titleValue`: empty without a value; otherwise the extracted token for the
   `token` kind and the percent-decoded value for every other kind. `None`
   where the computation throws. The extraction is the one the page calls,
   with its offset taken in the lowercase text.
   */
  function TitleValue(kind: Option<string>, value: Option<string>, url: UrlTokenParam): (r: Option<string>)
    ensures !Present(value) ==> r == Some("")
    ensures Present(value) && kind == Some("token") ==> r == ExtractTokenAsWritten(value.value, url)
    ensures Present(value) && kind != Some("token") ==> r == JsUri.DecodeComponent(value.value)
    ensures r.None? <==> Present(value) && JsUri.DecodeComponent(value.value).None?
  {
    if !Present(value) then Some("")
    else if kind == Some("token") then ExtractTokenAsWritten(value.value, url)
    else JsUri.DecodeComponent(value.value)
  }

  /** What `load` asks the server for. */
  datatype Lookup =
    | NoLookup              // kind or value missing: nothing happens
    | ByVin(vin: string)    // car and services by VIN
    | ByToken(token: string) // car and services by QR token
    | Failed                // decoding throws; `titleValue` has already thrown during render, so the `catch` is never reached

  /** `load`: the `vin` kind decodes the value, every other kind extracts a token. */
  function LoadLookup(kind: Option<string>, value: Option<string>, url: UrlTokenParam): (r: Lookup)
    ensures r.NoLookup? <==> !Present(kind) || !Present(value)
    ensures r.ByVin? ==> kind == Some("vin")
    ensures r.ByToken? ==> Present(kind) && kind != Some("vin")
  {
    if !Present(kind) || !Present(value) then NoLookup
    else if kind == Some("vin") then
      match JsUri.DecodeComponent(value.value)
      case Some(vin) => ByVin(vin)
      case None => Failed
    else
      match ExtractTokenAsWritten(value.value, url)
      case Some(token) => ByToken(token)
      case None => Failed
  }

  /** On a token route the header shows exactly the token that is queried. */
  lemma TokenHeaderMatchesLookup(value: Option<string>, url: UrlTokenParam, t: string)
    requires Present(value)
    ensures LoadLookup(Some("token"), value, url) == ByToken(t) <==> TitleValue(Some("token"), value, url) == Some(t)
    ensures LoadLookup(Some("token"), value, url) == Failed <==> TitleValue(Some("token"), value, url).None?
  {
  }

  /** On a VIN route the header shows exactly the VIN that is queried. */
  lemma VinHeaderMatchesLookup(value: Option<string>, url: UrlTokenParam, v: string)
    requires Present(value)
    ensures LoadLookup(Some("vin"), value, url) == ByVin(v) <==> TitleValue(Some("vin"), value, url) == Some(v)
    ensures LoadLookup(Some("vin"), value, url) == Failed <==> TitleValue(Some("vin"), value, url).None?
  {
  }

  /**
   A route whose kind is neither `vin` nor `token` is looked up by token, but its
   header shows the merely decoded value: for "token=abc" the header reads
   "token=abc" while "abc" is queried.
   */
  lemma OtherKindHeaderDiffers(value: string, url: UrlTokenParam)
    requires value == TokenKey + "abc"
    requires forall s :: url(s) == None
    ensures TitleValue(Some("car"), Some(value), url) == Some(value)
    ensures LoadLookup(Some("car"), Some(value), url) == ByToken("abc")
  {
    NoPercentInExample(value);
    JsUri.DecodeWithoutPercent(value);
    ExampleTokenRecovered(value, url);
    OtherKind("car");
  }

  lemma NoPercentInExample(value: string)
    requires value == TokenKey + "abc"
    ensures '%' !in value && value != ""
  {
  }

  /** "car" is neither of the two kinds the page names. */
  lemma OtherKind(kind: string)
    requires kind == "car"
    ensures Present(Some(kind)) && kind != "token" && kind != "vin"
  {
  }

  /** The token route recovers "abc" from "token=abc". */
  lemma ExampleTokenRecovered(value: string, url: UrlTokenParam)
    requires value == TokenKey + "abc"
    requires forall s :: url(s) == None
    ensures ExtractTokenAsWritten(value, url) == Some("abc")
  {
    assert [] + TokenKey + "abc" + [] == value;
    WrappedTokenIsRecoveredAsWritten([], "abc", [], url);
  }

  /**
   The QR scanner navigates to the token route with the token percent-encoded;
   that route queries the token itself.
   */
  lemma ScannedTokenIsQueried(t: string, url: UrlTokenParam)
    requires t != [] && IsTrimmed(t)
    requires forall j :: !KeyAt(t, j)
    requires !HasUrlToken(url, t)
    ensures LoadLookup(Some("token"), Some(JsUri.EncodeComponent(t)), url) == ByToken(t)
  {
    EncodedTokenIsRecoveredAsWritten(t, url);
    JsUri.EncodeEmpty(t);
  }

  /**
   The shifted cut reaches the page: the route value `İtoken=abc` shows `bc` in
   the header and queries `bc`.
   */
  lemma ShiftedTokenIsQueried(value: string)
    requires value == "\U{0130}token=abc"
    ensures TitleValue(Some("token"), Some(value), NoUrl) == Some("bc")
    ensures LoadLookup(Some("token"), Some(value), NoUrl) == ByToken("bc")
  {
    AsWrittenDropsTokenChar();
    ExtractedTokenIsShown(Some(value), NoUrl, "bc");
  }

  /** On a token route, whatever token the extraction yields is both shown and queried. */
  lemma ExtractedTokenIsShown(value: Option<string>, url: UrlTokenParam, t: string)
    requires Present(value) && ExtractTokenAsWritten(value.value, url) == Some(t)
    ensures TitleValue(Some("token"), value, url) == Some(t)
    ensures LoadLookup(Some("token"), value, url) == ByToken(t)
  {
  }

  /** The owner search navigates to the VIN route with the VIN percent-encoded; that route queries the VIN itself. */
  lemma SearchedVinIsQueried(v: string, url: UrlTokenParam)
    requires v != []
    ensures LoadLookup(Some("vin"), Some(JsUri.EncodeComponent(v)), url) == ByVin(v)
  {
    JsUri.DecodeEncode(v);
    JsUri.EncodeEmpty(v);
  }

  // ---------------------------------------------------------------------------
  // Report identifier
  // ---------------------------------------------------------------------------

  /** The longest identifier the report's file name carries. */
  const IdentifierLimit: nat := 40

  /** The class `[a-z0-9_-]` under the `i` flag: ASCII letters of either case, digits, `_` and `-`. */
  predicate IdentifierChar(c: char) {
    ('a' <= c <= 'z') || ('A' <= c <= 'Z') || ('0' <= c <= '9') || c == '_' || c == '-'
  }

  function Min(a: nat, b: nat): nat {
    if a <= b then a else b
  }

  /** `s.replace(/[^a-z0-9_-]/gi, "_")`. */
  function ReplaceOthers(s: string): (r: string)
    ensures |r| == |s|
    ensures forall i :: 0 <= i < |s| ==> r[i] == (if IdentifierChar(s[i]) then s[i] else '_')
  {
    if s == [] then [] else [if IdentifierChar(s[0]) then s[0] else '_'] + ReplaceOthers(s[1..])
  }

  /**
   `.replace(/[^a-z0-9_-]/gi, "_").slice(0, 40)`: the first 40 chars, each kept
   when allowed and replaced by `_` otherwise.
   */
  function Sanitize(s: string): (r: string)
    ensures |r| == Min(|s|, IdentifierLimit)
    ensures forall i :: 0 <= i < |r| ==> IdentifierChar(r[i])
    ensures forall i :: 0 <= i < |r| ==> (IdentifierChar(s[i]) ==> r[i] == s[i]) && (!IdentifierChar(s[i]) ==> r[i] == '_')
  {
    ReplaceOthers(s)[..Min(|s|, IdentifierLimit)]
  }

  /** At most 40 chars, all of them allowed. */
  predicate IsIdentifier(s: string) {
    |s| <= IdentifierLimit && forall i :: 0 <= i < |s| ==> IdentifierChar(s[i])
  }

  /** A string that is already an identifier is kept as it is. */
  lemma SanitizeKeepsIdentifier(s: string)
    requires IsIdentifier(s)
    ensures Sanitize(s) == s
  {
  }

  /** Sanitising twice gives the same identifier. */
  lemma SanitizeIdempotent(s: string)
    ensures Sanitize(Sanitize(s)) == Sanitize(s)
  {
    SanitizeKeepsIdentifier(Sanitize(s));
  }

  /**
   The report identifier, from the car's VIN on a VIN route and from the header
   value otherwise: always an identifier, and the source itself when that
   already is one (a 17-char VIN, say).
   */
  function ReportIdentifier(kind: Option<string>, carVin: string, title: string): (r: string)
    ensures IsIdentifier(r)
    ensures kind == Some("vin") && IsIdentifier(carVin) ==> r == carVin
    ensures kind != Some("vin") && IsIdentifier(title) ==> r == title
  {
    var source := if kind == Some("vin") then carVin else title;
    if IsIdentifier(source) then SanitizeKeepsIdentifier(source); Sanitize(source)
    else Sanitize(source)
  }

  // ---------------------------------------------------------------------------
  // Paging
  // ---------------------------------------------------------------------------

  /** `items.slice(start, end)` for `0 <= start <= end`: both ends clamp to the length. */
  function Slice<T>(items: seq<T>, start: nat, end: nat): (r: seq<T>)
    requires start <= end
    ensures start >= |items| ==> r == []
    ensures start < |items| ==> r == items[start..Min(end, |items|)]
  {
    if start >= |items| then [] else items[start..Min(end, |items|)]
  }

  /** `pagedItems`: the rows of page `page` (counting from 0) at `size` rows per page. */
  function PagedItems<T>(items: seq<T>, page: nat, size: nat): (r: seq<T>)
    ensures |r| <= size
    ensures forall k :: 0 <= k < |r| ==> page * size + k < |items| && r[k] == items[page * size + k]
    ensures (page + 1) * size <= |items| ==> |r| == size
  {
    Slice(items, page * size, page * size + size)
  }

  /** Pages 0 to `k - 1` one after the other. */
  function FirstPages<T>(items: seq<T>, k: nat, size: nat): seq<T> {
    if k == 0 then [] else FirstPages(items, k - 1, size) + PagedItems(items, k - 1, size)
  }

  /** The first `k` pages together are the first `k * size` items, in order. */
  lemma {:induction false} FirstPagesArePrefix<T>(items: seq<T>, k: nat, size: nat)
    ensures FirstPages(items, k, size) == items[..Min(|items|, k * size)]
  {
    if k > 0 {
      FirstPagesArePrefix(items, k - 1, size);
      var a := Min(|items|, (k - 1) * size);
      var b := Min(|items|, k * size);
      assert (k - 1) * size + size == k * size;
      PageIsSlice(items, k - 1, size, a, b);
      PrefixThenSlice(items, a, b);
    }
  }

  /** Page `page` is the slice of the items between its first and its last row. */
  lemma PageIsSlice<T>(items: seq<T>, page: nat, size: nat, a: nat, b: nat)
    requires a == Min(|items|, page * size) && b == Min(|items|, page * size + size)
    ensures a <= b && PagedItems(items, page, size) == items[a..b]
  {
  }

  lemma PrefixThenSlice<T>(s: seq<T>, a: nat, b: nat)
    requires a <= b <= |s|
    ensures s[..a] + s[a..b] == s[..b]
  {
  }

  /** Enough pages show every item exactly once, in order. */
  lemma AllPagesAreItems<T>(items: seq<T>, k: nat, size: nat)
    requires |items| <= k * size
    ensures FirstPages(items, k, size) == items
  {
    FirstPagesArePrefix(items, k, size);
  }

  /** Item `i` is row `i % size` of page `i / size`. */
  lemma ItemPage<T>(items: seq<T>, i: nat, size: nat)
    requires i < |items| && size > 0
    ensures i % size < |PagedItems(items, i / size, size)|
    ensures PagedItems(items, i / size, size)[i % size] == items[i]
  {
    DivMod(i, size);
    RowOfPage(items, i / size, size, (i / size) * size, i % size);
  }

  /** Euclidean division of a natural number by a positive one. */
  lemma DivMod(i: nat, size: nat)
    requires size > 0
    ensures (i / size) * size + i % size == i && 0 <= i % size < size
  {
  }

  /** Row `k` of the page that starts at `start`. */
  lemma RowOfPage<T>(items: seq<T>, page: nat, size: nat, start: nat, k: nat)
    requires start == page * size && k < size && start + k < |items|
    ensures k < |PagedItems(items, page, size)|
    ensures PagedItems(items, page, size)[k] == items[start + k]
  {
  }

  /** The table's paging state. */
  datatype Pager = Pager(page: nat, rowsPerPage: nat)

  /** Page 0 at 10 rows per page. */
  const InitialPager := Pager(0, 10)

  /** What changes the paging state. */
  datatype PagerEvent =
    | LookupChanged             // the route's kind or value changes
    | PageChanged(page: nat)    // the pagination control selects a page
    | RowsPerPageChanged(rows: nat) // the rows-per-page selector changes

  function Step(p: Pager, e: PagerEvent): (r: Pager)
    ensures e.LookupChanged? ==> r == p.(page := 0)
    ensures e.PageChanged? ==> r == p.(page := e.page)
    ensures e.RowsPerPageChanged? ==> r == Pager(0, e.rows)
  {
    match e
    case LookupChanged => p.(page := 0)
    case PageChanged(n) => p.(page := n)
    case RowsPerPageChanged(n) => Pager(0, n)
  }

  /** A new lookup or a new page size starts again at the first rows. */
  lemma ResetShowsFirstRows<T>(items: seq<T>, p: Pager, e: PagerEvent)
    requires e.LookupChanged? || e.RowsPerPageChanged?
    ensures var q := Step(p, e);
      q.page == 0 && PagedItems(items, q.page, q.rowsPerPage) == items[..Min(|items|, q.rowsPerPage)]
  {
    var q := Step(p, e);
    FirstPagesArePrefix(items, 1, q.rowsPerPage);
  }
}
