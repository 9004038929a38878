/**
 * The captive-portal client of api/src/auth.rs: the scrapers that turn the
 * gateway's redirect page and the portal's script into URLs and codes, the
 * carrier suffix tokens, the two request bodies, and the rules that classify
 * the two JSON answers.  Network exchanges are parameters.
 *
 * Where the Rust code unwraps or slices out of range it panics; the predicates
 * named `...Defined` state when it does not, and are the preconditions.
 */
module Auth {
  import opened Wrappers
  import opened Text
  import opened Json
  import Utf8

  // ---------------------------------------------------------------------------
  // Root of a URL

  /** `get_root_url` does not panic: the URL has a `://` and a `/` somewhere after it. */
  predicate HasRoot(url: string) {
    match Find(url, "://")
    case None => false
    case Some(i) => FindCharFrom(url, '/', i + 3).Some?
  }

  /** Index of the first `://` in a URL that has a root. */
  function SchemeEnd(url: string): (s: nat)
    requires HasRoot(url)
    ensures s + 3 <= |url| && url[s..s + 3] == "://"
    ensures forall j :: 0 <= j < s ==> !OccursAt(url, "://", j)
  {
    Find(url, "://").value
  }

  /**
   * `get_root_url`: the URL up to, not including, the first `/` after the first
   * `://` (scheme, host and port).  The URL is the root followed by its path.
   */
  function GetRootUrl(url: string): (r: string)
    requires HasRoot(url)
    ensures |r| < |url| && r == url[..|r|] && url[|r|] == '/'
    ensures SchemeEnd(url) + 3 <= |r| && r[SchemeEnd(url)..SchemeEnd(url) + 3] == "://"
    ensures forall j :: SchemeEnd(url) + 3 <= j < |r| ==> r[j] != '/'
    ensures forall j :: 0 <= j < SchemeEnd(url) ==> !OccursAt(url, "://", j)
  {
    url[..FindCharFrom(url, '/', SchemeEnd(url) + 3).value]
  }

  // ---------------------------------------------------------------------------
  // The gateway's redirect page

  /** The text strictly between the first two double quotes of the page. */
  function QuotedUrl(html: string): (r: Option<string>)
    ensures r.Some? ==> '"' !in r.value
  {
    match FindChar(html, '"')
    case None => None
    case Some(q1) =>
      match FindCharFrom(html, '"', q1 + 1)
      case None => None
      case Some(q2) => Some(html[q1 + 1..q2])
  }

  /** The Rust struct `IndexUrl`: the redirect URL, its root and its query pairs in order. */
  datatype IndexUrl = IndexUrl(url: string, root: string, args: seq<(string, string)>)

  /** `parse_index_page` does not panic: a quoted URL, if there is one, has a root. */
  predicate ParseIndexPageDefined(html: string) {
    QuotedUrl(html).Some? ==> HasRoot(QuotedUrl(html).value)
  }

  /** The query of a URL: the text after its first `?`. */
  function Query(url: string): (r: string)
    requires '?' in url
    ensures var k := |url| - |r| - 1;
      0 <= k && url[k] == '?' && r == url[k + 1..]
      && forall j :: 0 <= j < k ==> url[j] != '?'
  {
    url[FindChar(url, '?').value + 1..]
  }

  /**
   * `parse_index_page`: the first quoted string of the page is the redirect
   * URL; its root is computed (which is where it panics) before the `?` is
   * looked for, and the query after the `?` becomes the argument pairs.
   */
  function ParseIndexPage(html: string): (r: Option<IndexUrl>)
    requires ParseIndexPageDefined(html)
    ensures r.Some? <==> QuotedUrl(html).Some? && '?' in QuotedUrl(html).value
    ensures r.Some? ==> r.value.url == QuotedUrl(html).value
    ensures r.Some? ==> r.value.root == GetRootUrl(r.value.url)
    ensures r.Some? ==> r.value.url == r.value.root + r.value.url[|r.value.root|..]
    ensures r.Some? ==> r.value.args == ParseQuery(Query(r.value.url))
  {
    match QuotedUrl(html)
    case None => None
    case Some(url) =>
      var root := GetRootUrl(url);
      assert url == root + url[|root|..];
      if '?' in url then Some(IndexUrl(url, root, ParseQuery(Query(url)))) else None
  }

  /** The first quoted string of `before"url"after` is `url`. */
  lemma QuotedUrlOf(before: string, url: string, after: string)
    requires '"' !in before && '"' !in url
    ensures QuotedUrl(before + "\"" + url + "\"" + after) == Some(url)
  {
    var html := before + "\"" + url + "\"" + after;
    var q1 := |before|;
    var q2 := |before| + 1 + |url|;
    FindCharFromIs(html, '"', 0, q1);
    forall j | q1 + 1 <= j < q2 ensures html[j] != '"' {
      assert html[j] == url[j - q1 - 1];
    }
    FindCharFromIs(html, '"', q1 + 1, q2);
    assert html[q1 + 1..q2] == url;
  }

  /** A redirect page is read back into the URL it quotes, with that URL's root and query. */
  lemma ParseRedirectPage(before: string, url: string, after: string)
    requires '"' !in before && '"' !in url
    requires HasRoot(url) && '?' in url
    ensures var html := before + "\"" + url + "\"" + after;
      ParseIndexPageDefined(html)
      && ParseIndexPage(html) == Some(IndexUrl(url, GetRootUrl(url), ParseQuery(Query(url))))
  {
    QuotedUrlOf(before, url, after);
  }

  /**
   * The intended reading of the redirect page: a page whose quoted URL has no
   * root is as malformed as one without a `?`, and yields None instead of a panic.
   */
  function ParseIndexPageChecked(html: string): (r: Option<IndexUrl>)
    ensures ParseIndexPageDefined(html) ==> r == ParseIndexPage(html)
    ensures r.Some? <==> QuotedUrl(html).Some? && HasRoot(QuotedUrl(html).value) && '?' in QuotedUrl(html).value
  {
    match QuotedUrl(html)
    case None => None
    case Some(url) =>
      if HasRoot(url) && '?' in url then Some(IndexUrl(url, GetRootUrl(url), ParseQuery(Query(url)))) else None
  }

  /** A URL without a colon has no `://`, so no root. */
  lemma NoColonNoRoot(url: string)
    requires ':' !in url
    ensures !HasRoot(url)
  {
    forall j | 0 <= j <= |url| ensures !OccursAt(url, "://", j) {
      if j + 3 <= |url| {
        assert url[j..j + 3][0] == url[j];
      }
    }
  }

  /**
   * A page quoting a relative link panics in `parse_index_page`, even one
   * without a `?`, which the function means to reject with None.
   */
  lemma RelativeRedirectPanics(before: string, url: string, after: string)
    requires '"' !in before && '"' !in url && ':' !in url
    ensures var html := before + "\"" + url + "\"" + after;
      !ParseIndexPageDefined(html) && ParseIndexPageChecked(html) == None
  {
    QuotedUrlOf(before, url, after);
    NoColonNoRoot(url);
  }

  /** `<a href="index.html">`: a relative link without a query, on which the source panics. */
  lemma RelativeIndexLinkPanics(before: string, url: string, after: string)
    requires before == "<a href=" && url == "index.html" && after == ">"
    ensures var html := before + "\"" + url + "\"" + after;
      '?' !in url && !ParseIndexPageDefined(html) && ParseIndexPageChecked(html) == None
  {
    assert '"' !in before && '"' !in url && ':' !in url;
    RelativeRedirectPanics(before, url, after);
  }

  // ---------------------------------------------------------------------------
  // The script reference of the portal page

  /** What the capture group `(.*?js/common.js)` can hold: text ending in `js/common`, one character and `js`. */
  predicate IsJsUrlShape(u: string) {
    |u| >= 12 && u[|u| - 12..|u| - 3] == "js/common" && u[|u| - 2..] == "js"
  }

  /**
   * `get_js_url`, as a specification of its pattern
   * `<script.*?src="(.*?js/common.js).*?".*?>`: a `<script` at `i`, a `src="`
   * ending at `s`, the capture `html[s..e]`, a `"` at `q` and a `>` at `g`,
   * with no newline from `i` to `g`, since `.` does not match one.
   */
  predicate CapturesAt(html: string, i: nat, s: nat, e: nat, q: nat, g: nat) {
    && i + 12 <= s <= e <= q < g < |html|
    && html[i..i + 7] == "<script" && html[s - 5..s] == "src=\""
    && IsJsUrlShape(html[s..e]) && html[q] == '"' && html[g] == '>'
    && '\n' !in html[i..g]
  }

  /**
   * A one-line script tag `<script` + attributes + `src="` + path + `"` + rest
   * + `>` whose path ends in `js/common.js` is a match of the pattern capturing
   * exactly that path.
   */
  lemma ScriptTagCaptures(pre: string, tag: string, attrs: string, src: string, path: string, rest: string, post: string)
    requires tag == "<script" && src == "src=\""
    requires IsJsUrlShape(path)
    requires '\n' !in attrs && '\n' !in path && '\n' !in rest
    ensures var head := tag + attrs + src;
      var line := head + path + "\"" + rest;
      var html := pre + line + ">" + post;
      var s := |pre| + |head|;
      CapturesAt(html, |pre|, s, s + |path|, s + |path|, |pre| + |line|) && html[s..s + |path|] == path
  {
    var head := tag + attrs + src;
    var line := head + path + "\"" + rest;
    var html := pre + line + ">" + post;
    TagLineParts(tag, attrs, src, path, rest);
    assert html == pre + line + (">" + post);
    MiddlePart(pre, line, ">" + post, 0, |line|);
    assert html[|pre| + |line|] == '>';
    LineCaptures(html, |pre|, line, |head|, path);
  }

  /** A tag line found in the page, followed by `>`, is a match whose capture is the line's path. */
  lemma LineCaptures(html: string, i: nat, line: string, h: nat, path: string)
    requires i + |line| < |html| && html[i..i + |line|] == line && html[i + |line|] == '>'
    requires 12 <= h && h + |path| < |line|
    requires line[..7] == "<script" && line[h - 5..h] == "src=\""
    requires line[h..h + |path|] == path && line[h + |path|] == '"'
    requires IsJsUrlShape(path) && '\n' !in line
    ensures CapturesAt(html, i, i + h, i + h + |path|, i + h + |path|, i + |line|)
    ensures html[i + h..i + h + |path|] == path
  {
    InnerSlice(html, i, line, 0, 7);
    InnerSlice(html, i, line, h - 5, h);
    InnerSlice(html, i, line, h, h + |path|);
    assert html[i + h + |path|] == html[i..i + |line|][h + |path|];
  }

  /** Where a page holds a line, each slice of the line is the matching slice of the page. */
  lemma InnerSlice(html: string, i: nat, line: string, x: nat, y: nat)
    requires i + |line| <= |html| && html[i..i + |line|] == line
    requires x <= y <= |line|
    ensures html[i + x..i + y] == line[x..y]
  {
    assert forall k :: x <= k < y ==> html[i + k] == line[k];
  }

  /** The parts of a script tag line sit where they were put, and the line has no line break. */
  lemma TagLineParts(tag: string, attrs: string, src: string, path: string, rest: string)
    requires tag == "<script" && src == "src=\""
    requires '\n' !in attrs && '\n' !in path && '\n' !in rest
    ensures var head := tag + attrs + src;
      var line := head + path + "\"" + rest;
      line[..7] == tag && line[|head| - 5..|head|] == src
      && line[|head|..|head| + |path|] == path && line[|head| + |path|] == '"'
      && '\n' !in line
  {
    var head := tag + attrs + src;
    var line := head + path + "\"" + rest;
    assert line == tag + (attrs + src + path + "\"" + rest);
    assert line == (tag + attrs) + src + (path + "\"" + rest);
    assert line == head + path + ("\"" + rest);
  }

  /** A slice inside the middle part of a concatenation is that slice of the middle part. */
  lemma MiddlePart(a: string, b: string, c: string, x: nat, y: nat)
    requires x <= y <= |b|
    ensures (a + b + c)[|a| + x..|a| + y] == b[x..y]
  {
    assert forall k :: x <= k < y ==> (a + b + c)[|a| + k] == b[k];
  }

  /** Each part of a concatenation of three is its slice. */
  lemma ThreeParts(a: string, b: string, c: string)
    ensures var s := a + b + c;
      s[..|a|] == a && s[|a|..|a| + |b|] == b && s[|a| + |b|..] == c
  {
  }

  /** The middle part of a concatenation is its slice. */
  lemma MiddleSlice(a: string, b: string, c: string)
    ensures (a + b + c)[|a|..|a| + |b|] == b
  {
  }

  // ---------------------------------------------------------------------------
  // application/x-www-form-urlencoded (section 5 of the WHATWG URL Standard)

  /** One `name=value` piece: split at its first `=`; a piece without one is a name with an empty value. */
  function SplitPair(piece: string): (r: (string, string))
    ensures '=' !in r.0
    ensures '=' in piece ==> piece == r.0 + "=" + r.1
    ensures '=' !in piece ==> r == (piece, "")
  {
    match FindChar(piece, '=')
    case None => (piece, "")
    case Some(i) =>
      assert piece == piece[..i] + "=" + piece[i + 1..];
      (piece[..i], piece[i + 1..])
  }

  /** A hex digit of either case, as `%XX` decoding accepts. */
  predicate IsHexDigit(c: char) {
    ('0' <= c <= '9') || ('A' <= c <= 'F') || ('a' <= c <= 'f')
  }

  function HexValue(c: char): (d: nat)
    requires IsHexDigit(c)
    ensures d < 16
  {
    if c <= '9' then c as int - '0' as int
    else if c <= 'F' then c as int - 'A' as int + 10
    else c as int - 'a' as int + 10
  }

  /**
   * The bytes a name or value stands for: `+` is a space, `%` followed by two
   * hex digits is the byte they spell, and every other character, a `%`
   * without two hex digits after it included, is its own UTF-8 encoding.
   */
  function PercentDecode(s: string): (b: seq<Utf8.byte>)
    ensures |b| <= 4 * |s|
    decreases |s|
  {
    if s == [] then []
    else if s[0] == '%' && |s| >= 3 && IsHexDigit(s[1]) && IsHexDigit(s[2]) then
      [HexValue(s[1]) * 16 + HexValue(s[2])] + PercentDecode(s[3..])
    else if s[0] == '+' then [' ' as int] + PercentDecode(s[1..])
    else Utf8.EncodeChar(s[0]) + PercentDecode(s[1..])
  }

  /** A hex digit with `a` to `f` raised to `A` to `F`. */
  function UpperHex(c: char): (u: char)
    requires IsHexDigit(c)
    ensures IsHexDigit(u) && !('a' <= u <= 'f') && HexValue(u) == HexValue(c)
  {
    if 'a' <= c <= 'f' then (c as int - 32) as char else c
  }

  /** `+` decodes to a space byte, exactly like `%20`. */
  lemma PlusIsSpace(t: string)
    ensures PercentDecode("+" + t) == [0x20] + PercentDecode(t)
    ensures PercentDecode("+" + t) == PercentDecode("%20" + t)
  {
    assert ("+" + t)[1..] == t;
    var s := "%20" + t;
    assert s[0] == '%' && s[1] == '2' && s[2] == '0' && s[3..] == t;
  }

  /** A `%` code decodes the same in lower and upper case. */
  lemma CodeCaseInsensitive(h: char, l: char, t: string)
    requires IsHexDigit(h) && IsHexDigit(l)
    ensures PercentDecode(['%', h, l] + t) == [HexValue(h) * 16 + HexValue(l)] + PercentDecode(t)
    ensures PercentDecode(['%', h, l] + t) == PercentDecode(['%', UpperHex(h), UpperHex(l)] + t)
  {
    var s, u := ['%', h, l] + t, ['%', UpperHex(h), UpperHex(l)] + t;
    assert s[0] == '%' && s[1] == h && s[2] == l && s[3..] == t;
    assert u[0] == '%' && u[1] == UpperHex(h) && u[2] == UpperHex(l) && u[3..] == t;
    assert PercentDecode(s) == [HexValue(h) * 16 + HexValue(l)] + PercentDecode(t);
  }

  /** A `%` without two hex digits after it is kept as the byte of `%` itself. */
  lemma StrayPercentKept(t: string)
    requires !(|t| >= 2 && IsHexDigit(t[0]) && IsHexDigit(t[1]))
    ensures PercentDecode("%" + t) == ['%' as int] + PercentDecode(t)
  {
    var s := "%" + t;
    assert s[1..] == t;
    assert |s| >= 3 ==> s[1] == t[0] && s[2] == t[1];
  }

  /** Text with neither `%` nor `+` decodes to its own UTF-8 bytes. */
  lemma {:induction false} PercentDecodePlain(s: string)
    ensures '%' !in s && '+' !in s ==> PercentDecode(s) == Utf8.EncodeString(s)
  {
    if s != [] && '%' !in s && '+' !in s {
      assert s[0] in s && forall c :: c in s[1..] ==> c in s;
      PercentDecodePlain(s[1..]);
    }
  }

  /** One name or value decoded: its bytes, read back as UTF-8 with `from_utf8_lossy`. */
  function DecodeComponent(s: string): (r: string)
    ensures '%' !in s && '+' !in s ==> r == s
  {
    PercentDecodePlain(s);
    Utf8.DecodeEncodeString(s);
    Utf8.DecodeLossy(PercentDecode(s))
  }

  /** A non-empty piece decoded into its pair: split at the first `=`, then both sides decoded. */
  function ParsePair(piece: string): (r: (string, string))
    ensures '%' !in piece && '+' !in piece ==> r == SplitPair(piece)
  {
    var (name, value) := SplitPair(piece);
    assert '=' in piece ==> piece == name + "=" + value;
    (DecodeComponent(name), DecodeComponent(value))
  }

  /**
   * The parse of each non-empty piece, in order, for any way `parse` of reading
   * one piece.
   */
  function ParseNonEmpty<T>(pieces: seq<string>, parse: string -> T): (r: seq<T>)
    ensures |r| <= |pieces|
    ensures (forall i :: 0 <= i < |pieces| ==> pieces[i] == []) ==> r == []
    ensures pieces != [] && pieces[0] != [] ==> r != [] && r[0] == parse(pieces[0])
    ensures (forall i :: 0 <= i < |pieces| ==> pieces[i] != []) ==>
      |r| == |pieces| && forall i :: 0 <= i < |r| ==> r[i] == parse(pieces[i])
  {
    if pieces == [] then []
    else if pieces[0] == [] then ParseNonEmpty(pieces[1..], parse)
    else [parse(pieces[0])] + ParseNonEmpty(pieces[1..], parse)
  }

  /** Pieces are read one by one: two runs of pieces give their two runs of results in order. */
  lemma {:induction false} ParseNonEmptyAppend<T>(a: seq<string>, b: seq<string>, parse: string -> T)
    ensures ParseNonEmpty(a + b, parse) == ParseNonEmpty(a, parse) + ParseNonEmpty(b, parse)
  {
    if a == [] {
      assert a + b == b;
    } else {
      assert (a + b)[0] == a[0] && (a + b)[1..] == a[1..] + b;
      ParseNonEmptyAppend(a[1..], b, parse);
    }
  }

  /** The pairs of the non-empty pieces, in order. */
  function PairsOf(pieces: seq<string>): (r: seq<(string, string)>)
    ensures |r| <= |pieces|
    ensures (forall i :: 0 <= i < |pieces| ==> pieces[i] == []) ==> r == []
    ensures pieces != [] && pieces[0] != [] ==> r != [] && r[0] == ParsePair(pieces[0])
    ensures (forall i :: 0 <= i < |pieces| ==> pieces[i] != []) ==>
      |r| == |pieces| && forall i :: 0 <= i < |r| ==> r[i] == ParsePair(pieces[i])
  {
    ParseNonEmpty(pieces, ParsePair)
  }

  /** The pairs of two runs of pieces are the two runs' pairs in order, so an empty piece adds none. */
  lemma PairsOfAppend(a: seq<string>, b: seq<string>)
    ensures PairsOf(a + b) == PairsOf(a) + PairsOf(b)
  {
    ParseNonEmptyAppend(a, b, ParsePair);
  }

  /**
   * `form_urlencoded::parse`: the query split on `&`, empty pieces skipped,
   * each piece split at its first `=` and both sides decoded.
   */
  function ParseQuery(query: string): (r: seq<(string, string)>)
    ensures |r| <= |Split(query, '&')|
    ensures query == [] ==> r == []
    ensures query != [] && '&' !in query ==> r == [ParsePair(query)]
  {
    var pieces := Split(query, '&');
    assert query != [] && '&' !in query ==> pieces == [query] by {
      if query != [] && '&' !in query {
        assert Join([query], '&') == query;
        SplitJoin([query], '&');
      }
    }
    PairsOf(pieces)
  }

  /** The characters the serializer leaves as they are. */
  predicate IsUnreserved(c: char) {
    ('a' <= c <= 'z') || ('A' <= c <= 'Z') || ('0' <= c <= '9') || c == '*' || c == '-' || c == '.' || c == '_'
  }

  function HexDigit(d: int): (c: char)
    requires 0 <= d < 16
    ensures ('0' <= c <= '9') || ('A' <= c <= 'F')
    ensures IsHexDigit(c) && HexValue(c) == d
  {
    if d < 10 then ('0' as int + d) as char else ('A' as int + d - 10) as char
  }

  /** `%XX`, upper-case hex, for every byte. */
  function PercentEncode(bytes: seq<Utf8.byte>): (r: string)
    ensures |r| == 3 * |bytes|
    ensures forall i :: 0 <= i < |r| ==> r[i] == '%' || IsUnreserved(r[i])
    ensures forall k :: 0 <= k < |bytes| ==>
      r[3 * k] == '%' && r[3 * k + 1] == HexDigit(bytes[k] / 16) && r[3 * k + 2] == HexDigit(bytes[k] % 16)
  {
    if bytes == [] then []
    else
      var rest := PercentEncode(bytes[1..]);
      var r := ['%', HexDigit(bytes[0] / 16), HexDigit(bytes[0] % 16)] + rest;
      CodesShift(bytes, rest, r);
      r
  }

  /** The codes after the first byte's are the codes of the remaining bytes, three characters further on. */
  lemma CodesShift(bytes: seq<Utf8.byte>, rest: string, r: string)
    requires bytes != [] && |rest| == 3 * (|bytes| - 1)
    requires forall k :: 0 <= k < |bytes| - 1 ==>
      rest[3 * k] == '%' && rest[3 * k + 1] == HexDigit(bytes[k + 1] / 16) && rest[3 * k + 2] == HexDigit(bytes[k + 1] % 16)
    requires r == ['%', HexDigit(bytes[0] / 16), HexDigit(bytes[0] % 16)] + rest
    ensures forall k :: 0 <= k < |bytes| ==>
      r[3 * k] == '%' && r[3 * k + 1] == HexDigit(bytes[k] / 16) && r[3 * k + 2] == HexDigit(bytes[k] % 16)
  {
    forall k | 1 <= k < |bytes|
      ensures r[3 * k] == '%' && r[3 * k + 1] == HexDigit(bytes[k] / 16) && r[3 * k + 2] == HexDigit(bytes[k] % 16)
    {
      var j := 3 * (k - 1);
      assert r[j + 3] == rest[j] && r[j + 4] == rest[j + 1] && r[j + 5] == rest[j + 2];
    }
  }

  lemma {:induction false} PercentDecodeEncoded(bytes: seq<Utf8.byte>, rest: string)
    ensures PercentDecode(PercentEncode(bytes) + rest) == bytes + PercentDecode(rest)
  {
    if bytes == [] {
      assert PercentEncode(bytes) + rest == rest;
    } else {
      var b := bytes[0];
      var t := PercentEncode(bytes[1..]);
      var code := ['%', HexDigit(b / 16), HexDigit(b % 16)];
      var s := PercentEncode(bytes) + rest;
      assert s == code + (t + rest);
      PercentDecodeByte(b, t + rest);
      PercentDecodeEncoded(bytes[1..], rest);
      ConsAppend(bytes, PercentDecode(rest));
    }
  }

  lemma ConsAppend(a: seq<Utf8.byte>, b: seq<Utf8.byte>)
    requires a != []
    ensures a + b == [a[0]] + (a[1..] + b)
  {
  }

  /** `%XX` written by PercentEncode decodes to its byte. */
  lemma PercentDecodeByte(b: Utf8.byte, tail: string)
    ensures PercentDecode(['%', HexDigit(b / 16), HexDigit(b % 16)] + tail) == [b] + PercentDecode(tail)
  {
    var s := ['%', HexDigit(b / 16), HexDigit(b % 16)] + tail;
    assert s[0] == '%' && IsHexDigit(s[1]) && IsHexDigit(s[2]);
    assert HexValue(s[1]) * 16 + HexValue(s[2]) == b;
    assert s[3..] == tail;
  }

  /** The byte serializer: unreserved characters kept, space as `+`, every other UTF-8 byte as `%XX`. */
  function EncodeComponent(s: string): (r: string)
    ensures forall i :: 0 <= i < |r| ==> r[i] == '%' || r[i] == '+' || IsUnreserved(r[i])
    ensures '&' !in r && '=' !in r
  {
    if s == [] then []
    else
      var head :=
        if IsUnreserved(s[0]) then [s[0]]
        else if s[0] == ' ' then "+"
        else PercentEncode(Utf8.EncodeChar(s[0]));
      var tail := EncodeComponent(s[1..]);
      EncodedConcat(head, tail);
      head + tail
  }

  /** Two runs of serializer output, one after the other, are serializer output. */
  lemma EncodedConcat(a: string, b: string)
    requires forall i :: 0 <= i < |a| ==> a[i] == '%' || a[i] == '+' || IsUnreserved(a[i])
    requires forall i :: 0 <= i < |b| ==> b[i] == '%' || b[i] == '+' || IsUnreserved(b[i])
    ensures forall i :: 0 <= i < |a + b| ==> (a + b)[i] == '%' || (a + b)[i] == '+' || IsUnreserved((a + b)[i])
    ensures '&' !in a + b && '=' !in a + b
  {
    var r := a + b;
    forall i | 0 <= i < |r| ensures r[i] == '%' || r[i] == '+' || IsUnreserved(r[i]) {
      if i < |a| { assert r[i] == a[i]; } else { assert r[i] == b[i - |a|]; }
    }
  }

  /** Decoding an encoded name or value gives back its UTF-8 bytes. */
  lemma {:induction false} PercentDecodeComponent(s: string)
    ensures PercentDecode(EncodeComponent(s)) == Utf8.EncodeString(s)
  {
    if s != [] {
      var tail := EncodeComponent(s[1..]);
      var c := s[0];
      var head :=
        if IsUnreserved(c) then [c]
        else if c == ' ' then "+"
        else PercentEncode(Utf8.EncodeChar(c));
      assert EncodeComponent(s) == head + tail;
      if IsUnreserved(c) {
        assert (head + tail)[0] == c && (head + tail)[1..] == tail;
      } else if c == ' ' {
        assert (head + tail)[0] == '+' && (head + tail)[1..] == tail;
      } else {
        PercentDecodeEncoded(Utf8.EncodeChar(c), tail);
      }
      assert PercentDecode(head + tail) == Utf8.EncodeChar(c) + PercentDecode(tail);
      PercentDecodeComponent(s[1..]);
    }
  }

  /** Every name and value survives encoding and decoding unchanged. */
  lemma ComponentRoundTrip(s: string)
    ensures DecodeComponent(EncodeComponent(s)) == s
  {
    PercentDecodeComponent(s);
    Utf8.DecodeEncodeString(s);
  }

  /** `Serializer::append_pair`: the encoded name, `=`, the encoded value; it reads back as the pair. */
  function EncodePair(p: (string, string)): (r: string)
    ensures '&' !in r && r != []
    ensures ParsePair(r) == p
  {
    var n := EncodeComponent(p.0);
    var r := n + "=" + EncodeComponent(p.1);
    FindCharFromIs(r, '=', 0, |n|);
    assert r[..|n|] == n && r[|n| + 1..] == EncodeComponent(p.1);
    ComponentRoundTrip(p.0);
    ComponentRoundTrip(p.1);
    r
  }

  /** `form_urlencoded::Serializer`: the encoded pairs, `&` between consecutive ones. */
  function Serialize(pairs: seq<(string, string)>): (r: string)
    ensures pairs == [] <==> r == []
  {
    if pairs == [] then ""
    else if |pairs| == 1 then EncodePair(pairs[0])
    else EncodePair(pairs[0]) + "&" + Serialize(pairs[1..])
  }

  function EncodedPieces(pairs: seq<(string, string)>): (r: seq<string>)
    ensures |r| == |pairs|
    ensures forall i :: 0 <= i < |r| ==> r[i] == EncodePair(pairs[i])
  {
    seq(|pairs|, i requires 0 <= i < |pairs| => EncodePair(pairs[i]))
  }

  lemma {:induction false} SerializeIsJoin(pairs: seq<(string, string)>)
    requires pairs != []
    ensures Serialize(pairs) == Join(EncodedPieces(pairs), '&')
  {
    if |pairs| > 1 {
      SerializeIsJoin(pairs[1..]);
      assert EncodedPieces(pairs)[1..] == EncodedPieces(pairs[1..]);
    }
  }

  /** Parsing a serialized query gives back its pairs, in order, names and values decoded. */
  lemma ParseSerialized(pairs: seq<(string, string)>)
    ensures ParseQuery(Serialize(pairs)) == pairs
  {
    if pairs == [] {
      assert Split("", '&') == [""];
    } else {
      var pieces := EncodedPieces(pairs);
      SerializeIsJoin(pairs);
      SplitJoin(pieces, '&');
      PairsOfEncoded(pairs);
    }
  }

  /** Every encoded pair is a non-empty piece that parses back to that pair. */
  lemma PairsOfEncoded(pairs: seq<(string, string)>)
    ensures PairsOf(EncodedPieces(pairs)) == pairs
  {
    var pieces := EncodedPieces(pairs);
    assert forall i :: 0 <= i < |pieces| ==> pieces[i] != [];
    var r := PairsOf(pieces);
    assert forall i :: 0 <= i < |r| ==> r[i] == pairs[i];
  }

  // ---------------------------------------------------------------------------
  // The portal's script

  /** `format!("{} =", name)`: the text that starts an assignment to `name`. */
  function Assignment(name: string): string {
    name + " ="
  }

  /** The raw text after the first `name =` up to the next `;`, if both are there. */
  function ValueSlot(js: string, name: string): (r: Option<string>)
    ensures r.Some? ==> ';' !in r.value
  {
    match Find(js, Assignment(name))
    case None => None
    case Some(i) =>
      var start := i + |Assignment(name)|;
      match FindCharFrom(js, ';', start)
      case None => None
      case Some(e) =>
        assert forall j :: 0 <= j < e - start ==> js[start..e][j] == js[start + j];
        Some(js[start..e])
  }

  predicate IsQuote(c: char) {
    c == '\'' || c == '"'
  }

  /** The trimmed value opens with a quote, the only case `get_variable_value` extracts. */
  predicate OpensQuoted(t: string) {
    t != [] && IsQuote(t[0])
  }

  /**
   * `get_variable_value` does not panic: when it slices the trimmed value
   * (`[1..len - 1]`, in bytes) the value has at least two characters and its
   * last one is a single byte.
   */
  predicate GetVariableValueDefined(js: string, name: string) {
    match ValueSlot(js, name)
    case None => true
    case Some(v) => OpensQuoted(Trim(v)) ==> |Trim(v)| >= 2 && Utf8.IsAscii(Trim(v)[|Trim(v)| - 1])
  }

  /**
   * `get_variable_value`: the first `name =` (a plain substring, so `xname =`
   * matches too), the text up to the next `;`, trimmed; if it opens with a quote,
   * its first and last characters are dropped.  The last one is not checked to
   * be a quote.
   */
  function GetVariableValue(js: string, name: string): (r: Option<string>)
    requires GetVariableValueDefined(js, name)
    ensures r.Some? <==> ValueSlot(js, name).Some? && OpensQuoted(Trim(ValueSlot(js, name).value))
    ensures r.Some? ==>
      var t := Trim(ValueSlot(js, name).value);
      |r.value| == |t| - 2 && t == [t[0]] + r.value + [t[|t| - 1]]
  {
    match ValueSlot(js, name)
    case None => None
    case Some(v) =>
      var t := Trim(v);
      if OpensQuoted(t) then
        assert t == [t[0]] + t[1..|t| - 1] + [t[|t| - 1]];
        Some(t[1..|t| - 1])
      else None
  }

  /** An assignment preceded by no other `name =` is the first one `find` meets. */
  lemma FirstAssignment(before: string, name: string, rest: string)
    requires !Contains(before + name + " ", Assignment(name))
    ensures Find(before + Assignment(name) + rest, Assignment(name)) == Some(|before|)
  {
    var a := Assignment(name);
    var js := before + a + rest;
    var prefix := before + name + " ";
    forall j | 0 <= j < |before| ensures !OccursAt(js, a, j) {
      if OccursAt(js, a, j) {
        assert js[j..j + |a|] == prefix[j..j + |a|];
        assert OccursAt(prefix, a, j);
      }
    }
    assert js[|before|..|before| + |a|] == a;
    FindFromIs(js, a, 0, |before|);
  }

  /** With no earlier `name =`, the value slot is exactly the text up to the first `;` after the assignment. */
  lemma ValueSlotAfter(before: string, name: string, slot: string, after: string)
    requires ';' !in slot
    requires !Contains(before + name + " ", Assignment(name))
    ensures ValueSlot(before + Assignment(name) + slot + ";" + after, name) == Some(slot)
  {
    var a := Assignment(name);
    var head, tail := before + a, ";" + after;
    var js := before + a + slot + ";" + after;
    assert js == head + slot + tail;
    assert js == before + a + (slot + tail);
    FirstAssignment(before, name, slot + tail);
    var start, e := |head|, |head| + |slot|;
    MiddlePart(head, slot, tail, 0, |slot|);
    assert js[start..e] == slot;
    assert js[e] == tail[0];
    ValueSlotAt(js, name, |before|, e);
  }

  /** The assignment found at `i` and the first `;` after it at `e` bound the value slot. */
  lemma ValueSlotAt(js: string, name: string, i: nat, e: nat)
    requires Find(js, Assignment(name)) == Some(i)
    requires i + |Assignment(name)| <= e < |js| && js[e] == ';'
    requires ';' !in js[i + |Assignment(name)|..e]
    ensures ValueSlot(js, name) == Some(js[i + |Assignment(name)|..e])
  {
    var start := i + |Assignment(name)|;
    forall j | start <= j < e ensures js[j] != ';' {
      assert js[j] == js[start..e][j - start];
    }
    FindCharFromIs(js, ';', start, e);
  }

  /**
   * The value after the opening quote is read up to, not including, the last
   * character before the `;` and its trailing whitespace, whatever that
   * character is: the closing quote is never checked.
   */
  lemma ExtractOpenedValue(before: string, name: string, ws1: string, q: char, v: string, c: char, ws2: string, after: string)
    requires IsQuote(q) && ';' !in v
    requires c != ';' && !IsWhitespace(c) && Utf8.IsAscii(c)
    requires AllWhitespace(ws1) && AllWhitespace(ws2)
    requires !Contains(before + name + " ", Assignment(name))
    ensures var js := before + Assignment(name) + ws1 + [q] + v + [c] + ws2 + ";" + after;
      GetVariableValueDefined(js, name) && GetVariableValue(js, name) == Some(v)
  {
    var t := [q] + v + [c];
    var slot := ws1 + t + ws2;
    assert ';' !in slot by {
      forall j | 0 <= j < |slot| ensures slot[j] != ';' {
        if j < |ws1| { assert IsWhitespace(ws1[j]); }
        else if |ws1| + |t| <= j { assert IsWhitespace(ws2[j - |ws1| - |t|]); }
        else { assert slot[j] == t[j - |ws1|]; }
      }
    }
    var js := before + Assignment(name) + ws1 + [q] + v + [c] + ws2 + ";" + after;
    assert js == before + Assignment(name) + slot + ";" + after;
    ValueSlotAfter(before, name, slot, after);
    assert ValueSlot(js, name) == Some(slot);
    TrimPadded(ws1, t, ws2);
    assert OpensQuoted(t) && t[|t| - 1] == c;
    assert GetVariableValueDefined(js, name);
    assert t[1..|t| - 1] == v;
  }

  /**
   * A quoted assignment is read back: whatever whitespace surrounds the quoted
   * value, and whichever quote is used, the value comes out exactly, provided
   * no earlier text already contains `name =` and the value holds no `;`.
   */
  lemma ExtractQuotedValue(before: string, name: string, ws1: string, q: char, v: string, ws2: string, after: string)
    requires IsQuote(q) && ';' !in v
    requires AllWhitespace(ws1) && AllWhitespace(ws2)
    requires !Contains(before + name + " ", Assignment(name))
    ensures var js := before + Assignment(name) + ws1 + [q] + v + [q] + ws2 + ";" + after;
      GetVariableValueDefined(js, name) && GetVariableValue(js, name) == Some(v)
  {
    ExtractOpenedValue(before, name, ws1, q, v, q, ws2, after);
  }

  // ---------------------------------------------------------------------------
  // Endpoints from the script

  /** The Rust struct `AuthInfo`. */
  datatype AuthInfo = AuthInfo(logoutUrlRoot: string, authUrl: string, schoolCodes: string)

  /** `get_js_auth_info` does not panic: both variables are found and the auth URL has a root. */
  predicate JsAuthInfoDefined(js: string) {
    GetVariableValueDefined(js, "authApiUrl") && GetVariableValue(js, "authApiUrl").Some?
    && HasRoot(GetVariableValue(js, "authApiUrl").value)
    && GetVariableValueDefined(js, "authSchoolCodes") && GetVariableValue(js, "authSchoolCodes").Some?
  }

  /** `get_root_url(url).split(':').collect()[0]`: the root up to its first `:`. */
  function LogoutRootAsWritten(url: string): (r: string)
    requires HasRoot(url)
    ensures ':' !in r
    ensures |r| <= SchemeEnd(url) && r == url[..|r|]
    ensures |r| < |url| && url[|r|] == ':'
  {
    var root := GetRootUrl(url);
    var s := SchemeEnd(url);
    assert url[s] == url[s..s + 3][0] == ':';
    assert root[s] == url[s];
    Split(root, ':')[0]
  }

  /**
   * `get_js_auth_info`: the auth URL and the school codes are the two script
   * variables; the logout root is derived from the auth URL by LogoutRootAsWritten.
   */
  function GetJsAuthInfo(js: string): (r: AuthInfo)
    requires JsAuthInfoDefined(js)
    ensures GetVariableValue(js, "authApiUrl") == Some(r.authUrl)
    ensures GetVariableValue(js, "authSchoolCodes") == Some(r.schoolCodes)
    ensures HasRoot(r.authUrl) && r.logoutUrlRoot == LogoutRootAsWritten(r.authUrl)
  {
    var authUrl := GetVariableValue(js, "authApiUrl").value;
    AuthInfo(LogoutRootAsWritten(authUrl), authUrl, GetVariableValue(js, "authSchoolCodes").value)
  }

  /**
   * The intended logout root: the auth URL's root with its `:port` removed,
   * that is scheme, `://` and host.
   */
  function LogoutHost(url: string): (r: string)
    requires HasRoot(url)
    ensures |r| <= |GetRootUrl(url)| && r == GetRootUrl(url)[..|r|]
    ensures SchemeEnd(url) + 3 <= |r| && r[SchemeEnd(url)..SchemeEnd(url) + 3] == "://"
    ensures forall j :: SchemeEnd(url) + 3 <= j < |r| ==> r[j] != ':' && r[j] != '/'
    ensures |r| < |GetRootUrl(url)| ==> GetRootUrl(url)[|r|] == ':'
  {
    var root := GetRootUrl(url);
    match FindCharFrom(root, ':', SchemeEnd(url) + 3)
    case None => root
    case Some(p) => root[..p]
  }

  /** When the scheme holds no `:` itself, the source keeps exactly the scheme. */
  lemma LogoutRootIsWholeScheme(url: string)
    requires HasRoot(url) && ':' !in url[..SchemeEnd(url)]
    ensures LogoutRootAsWritten(url) == url[..SchemeEnd(url)]
  {
    var e := SchemeEnd(url);
    forall j | 0 <= j < e ensures url[j] != ':' {
      assert url[..e][j] == url[j];
    }
  }

  /** What the source keeps of the root, the scheme, is where the intended logout root starts. */
  lemma AsWrittenIsPrefixOfHost(url: string)
    requires HasRoot(url)
    ensures LogoutRootAsWritten(url) == LogoutHost(url)[..|LogoutRootAsWritten(url)|]
  {
    var w, h := LogoutRootAsWritten(url), LogoutHost(url);
    assert h == url[..|h|];
    assert w == url[..|w|];
  }

  /**
   * `get_js_auth_info` with the intended logout root: the same auth URL and
   * school codes, and LogoutHost in place of LogoutRootAsWritten, of which the
   * source's root is a prefix.
   */
  function GetJsAuthInfoCorrected(js: string): (r: AuthInfo)
    requires JsAuthInfoDefined(js)
    ensures var info := GetJsAuthInfo(js);
      && r.authUrl == info.authUrl && r.schoolCodes == info.schoolCodes
      && HasRoot(r.authUrl) && r.logoutUrlRoot == LogoutHost(r.authUrl)
      && info.logoutUrlRoot == r.logoutUrlRoot[..|info.logoutUrlRoot|]
  {
    var info := GetJsAuthInfo(js);
    AsWrittenIsPrefixOfHost(info.authUrl);
    AuthInfo(LogoutHost(info.authUrl), info.authUrl, info.schoolCodes)
  }

  /** The root of `scheme://host:port/path` is `scheme://host:port`. */
  lemma HostPortRoot(scheme: string, host: string, port: string, path: string)
    requires ':' !in scheme
    requires '/' !in host && '/' !in port
    requires path != [] && path[0] == '/'
    ensures var url := scheme + "://" + host + ":" + port + path;
      HasRoot(url) && SchemeEnd(url) == |scheme| && GetRootUrl(url) == scheme + "://" + host + ":" + port
  {
    var url := scheme + "://" + host + ":" + port + path;
    var s := |scheme|;
    forall j | 0 <= j < s ensures !OccursAt(url, "://", j) {
      if j + 3 <= |url| {
        assert url[j..j + 3][0] == url[j] == scheme[j];
      }
    }
    assert url[s..s + 3] == "://";
    FindFromIs(url, "://", 0, s);
    var slash := s + 3 + |host| + 1 + |port|;
    forall j | s + 3 <= j < slash ensures url[j] != '/' {
      if j < s + 3 + |host| { assert url[j] == host[j - s - 3]; }
      else if j > s + 3 + |host| { assert url[j] == port[j - s - 4 - |host|]; }
    }
    assert url[slash] == path[0];
    FindCharFromIs(url, '/', s + 3, slash);
    assert url[..slash] == scheme + "://" + host + ":" + port;
  }

  /**
   * For `scheme://host:port/path` the source's logout root is the bare scheme,
   * while the intended one is `scheme://host`.
   */
  lemma LogoutRootOfHostPortUrl(scheme: string, host: string, port: string, path: string)
    requires ':' !in scheme
    requires ':' !in host && '/' !in host && '/' !in port
    requires path != [] && path[0] == '/'
    ensures var url := scheme + "://" + host + ":" + port + path;
      HasRoot(url) && LogoutRootAsWritten(url) == scheme && LogoutHost(url) == scheme + "://" + host
  {
    var url := scheme + "://" + host + ":" + port + path;
    HostPortRoot(scheme, host, port, path);
    var s := |scheme|;
    var root := scheme + "://" + host + ":" + port;
    assert root[..s] == scheme;
    FindCharFromIs(root, ':', 0, s);
    forall j | s + 3 <= j < s + 3 + |host| ensures root[j] != ':' {
      assert root[j] == host[j - s - 3];
    }
    FindCharFromIs(root, ':', s + 3, s + 3 + |host|);
    assert root[..s + 3 + |host|] == scheme + "://" + host;
  }

  /** The portal address seen in the source's tests, `http://10.101.2.205`, behind port 8080: logout root `http`. */
  lemma LogoutRootIsScheme(scheme: string, host: string, port: string, path: string)
    requires scheme == "http" && host == "10.101.2.205" && port == "8080" && path == "/api/login"
    ensures var url := scheme + "://" + host + ":" + port + path;
      HasRoot(url) && LogoutRootAsWritten(url) == scheme && LogoutHost(url) == scheme + "://" + host
  {
    assert ':' !in scheme && ':' !in host && '/' !in host && '/' !in port;
    LogoutRootOfHostPortUrl(scheme, host, port, path);
  }

  // ---------------------------------------------------------------------------
  // Carriers and credentials

  /** `Suffix`; the variant name `ChinaMobie` is the source's spelling. */
  datatype Suffix = ChinaMobie | ChinaUnicom | ChinaTelecom | Local

  /** `Suffix::to_str`, and `to_string`, which copies it. */
  function ToStr(s: Suffix): (r: string)
    ensures |r| == 3 || |r| == 4
    ensures r[0] == '@'
  {
    match s
    case ChinaMobie => "@yd"
    case ChinaUnicom => "@lt"
    case ChinaTelecom => "@dx"
    case Local => "@hsd"
  }

  /** The token table read backwards: the carrier a token stands for. */
  function FromToken(t: string): (r: Option<Suffix>)
    ensures r.Some? ==> ToStr(r.value) == t
  {
    if t == "@yd" then Some(ChinaMobie)
    else if t == "@lt" then Some(ChinaUnicom)
    else if t == "@dx" then Some(ChinaTelecom)
    else if t == "@hsd" then Some(Local)
    else None
  }

  /** Every carrier's token is read back as that carrier, so no two carriers share a token. */
  lemma TokenRoundTrip(s: Suffix)
    ensures FromToken(ToStr(s)) == Some(s)
  {
  }

  lemma ToStrInjective(a: Suffix, b: Suffix)
    ensures ToStr(a) == ToStr(b) ==> a == b
  {
    TokenRoundTrip(a);
    TokenRoundTrip(b);
  }

  /** The Rust struct `UserInfo` of the API crate. */
  datatype UserInfo = UserInfo(id: string, password: string, suffix: Suffix)

  /** The form posted to the auth URL, in the source's order. */
  function PrimaryAuthForm(info: AuthInfo, user: UserInfo): (r: seq<(string, string)>)
    ensures |r| == 4
    ensures r[0] == ("campusCode", info.schoolCodes) && r[1] == ("username", user.id)
    ensures r[2] == ("password", user.password) && r[3] == ("operatorSuffix", ToStr(user.suffix))
  {
    [("campusCode", info.schoolCodes), ("username", user.id),
     ("password", user.password), ("operatorSuffix", ToStr(user.suffix))]
  }

  /** The quick-auth pairs: the redirect's arguments, then `userid` (id and carrier token), then `passwd`. */
  function QuickAuthPairs(args: seq<(string, string)>, user: UserInfo): (r: seq<(string, string)>)
    ensures |r| == |args| + 2 && r[..|args|] == args
    ensures r[|args|] == ("userid", user.id + ToStr(user.suffix))
    ensures r[|args| + 1] == ("passwd", user.password)
  {
    args + [("userid", user.id + ToStr(user.suffix)), ("passwd", user.password)]
  }

  /** The path and `?` of the quick-auth request below the portal root. */
  const QuickAuthPath: string := "/quickauth.do?"

  /**
   * The quick-auth request URL: the portal root, the quick-auth path, and a
   * query that reads back as the redirect's arguments followed by `userid`
   * and `passwd`.
   */
  function QuickAuthUrl(root: string, args: seq<(string, string)>, user: UserInfo): (r: string)
    ensures var n := |root| + |QuickAuthPath|;
      n <= |r| && r[..|root|] == root && r[|root|..n] == QuickAuthPath
      && ParseQuery(r[n..]) == QuickAuthPairs(args, user)
  {
    var pairs := QuickAuthPairs(args, user);
    var q := Serialize(pairs);
    ParseSerialized(pairs);
    ThreeParts(root, QuickAuthPath, q);
    root + QuickAuthPath + q
  }

  // ---------------------------------------------------------------------------
  // Classifying the answers

  /** `AuthError<T>`, `T` being the type of the response an InvalidResponse carries. */
  datatype AuthError<T> = ReqError(reason: string) | InvalidResponse(response: T) | AuthFailed(msg: string) | Authed

  /**
   * The answer to the primary POST: an integer `code` of 1 goes on to quick
   * auth; any other integer is a rejection carrying the string `msg` (or "");
   * no integer `code` at all makes the whole response an InvalidResponse.
   */
  function ClassifyPrimary(resp: Value): (r: Result<(), AuthError<Value>>)
    ensures r.Ok? <==> GetI64(resp, "code") == Some(1)
    ensures r.Err? && r.error.AuthFailed? <==> GetI64(resp, "code").Some? && GetI64(resp, "code") != Some(1)
    ensures r.Err? && r.error.AuthFailed? ==> r.error.msg == GetStrOrEmpty(resp, "msg")
    ensures r.Err? && !r.error.AuthFailed? ==> r.error == InvalidResponse(resp)
  {
    match GetI64(resp, "code")
    case Some(code) =>
      if code != 1 then Err(AuthFailed(GetStrOrEmpty(resp, "msg"))) else Ok(())
    case None => Err(InvalidResponse(resp))
  }

  /**
   * The answer to the quick-auth GET: a string `code` of "0" is success; any
   * other string is a rejection carrying `message` (or ""); no string `code`
   * makes the whole response an InvalidResponse.
   */
  function ClassifyQuick(resp: Value): (r: Result<(), AuthError<Value>>)
    ensures r.Ok? <==> GetStr(resp, "code") == Some("0")
    ensures r.Err? && r.error.AuthFailed? <==> GetStr(resp, "code").Some? && GetStr(resp, "code") != Some("0")
    ensures r.Err? && r.error.AuthFailed? ==> r.error.msg == GetStrOrEmpty(resp, "message")
    ensures r.Err? && !r.error.AuthFailed? ==> r.error == InvalidResponse(resp)
  {
    match GetStr(resp, "code")
    case Some(code) =>
      if code == "0" then Ok(()) else Err(AuthFailed(GetStrOrEmpty(resp, "message")))
    case None => Err(InvalidResponse(resp))
  }

  /** The two phases read `code` with different types: a code right for one phase is malformed for the other. */
  lemma CodeTypesDiffer()
    ensures ClassifyPrimary(Single("code", Int(1))).Ok?
    ensures ClassifyQuick(Single("code", Int(1))) == Err(InvalidResponse(Single("code", Int(1))))
    ensures ClassifyQuick(Single("code", Str("0"))).Ok?
    ensures ClassifyPrimary(Single("code", Str("1"))) == Err(InvalidResponse(Single("code", Str("1"))))
    ensures ClassifyPrimary(Single("code", Num(Float(1.0)))).Err?
  {
  }

  /** Two sample rejections, `{"code":2,"msg":"bad pass"}` and `{"code":"1","message":"x"}`, carry their messages. */
  lemma RejectionMessages()
    ensures ClassifyPrimary(Object(map["code" := Int(2), "msg" := Str("bad pass")])) == Err(AuthFailed("bad pass"))
    ensures ClassifyQuick(Object(map["code" := Str("1"), "message" := Str("x")])) == Err(AuthFailed("x"))
    ensures ClassifyPrimary(Object(map["msg" := Str("x")])).error.InvalidResponse?
  {
  }

  /**
   * `auth`: the primary POST, then, only when it is accepted, the quick-auth
   * GET; `post` and `get` stand for the network.
   */
  function Authenticate(index: IndexUrl, info: AuthInfo, user: UserInfo,
                        post: (string, seq<(string, string)>) -> Exchange,
                        get: string -> Exchange): (r: Result<(), AuthError<Value>>)
    ensures r.Ok? <==>
      post(info.authUrl, PrimaryAuthForm(info, user)).Received?
      && GetI64(post(info.authUrl, PrimaryAuthForm(info, user)).body, "code") == Some(1)
      && get(QuickAuthUrl(index.root, index.args, user)).Received?
      && GetStr(get(QuickAuthUrl(index.root, index.args, user)).body, "code") == Some("0")
    ensures r != Err(Authed)
    ensures post(info.authUrl, PrimaryAuthForm(info, user)).Received?
      && ClassifyPrimary(post(info.authUrl, PrimaryAuthForm(info, user)).body).Err?
      ==> r == ClassifyPrimary(post(info.authUrl, PrimaryAuthForm(info, user)).body)
    ensures var primary := post(info.authUrl, PrimaryAuthForm(info, user));
      primary.RequestFailed? ==> r == Err(ReqError(primary.reason))
    ensures var primary := post(info.authUrl, PrimaryAuthForm(info, user));
      var quick := get(QuickAuthUrl(index.root, index.args, user));
      primary.Received? && ClassifyPrimary(primary.body).Ok? ==>
        (quick.RequestFailed? ==> r == Err(ReqError(quick.reason)))
        && (quick.Received? ==> r == ClassifyQuick(quick.body))
  {
    match post(info.authUrl, PrimaryAuthForm(info, user))
    case RequestFailed(e) => Err(ReqError(e))
    case Received(v) =>
      match ClassifyPrimary(v)
      case Err(e) => Err(e)
      case Ok(_) =>
        match get(QuickAuthUrl(index.root, index.args, user))
        case RequestFailed(e) => Err(ReqError(e))
        case Received(q) => ClassifyQuick(q)
  }
}
