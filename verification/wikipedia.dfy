/**
 The pure parts of the encyclopedia client: the rule deciding which in-page
 hyperlinks are legal moves, the title recovered from such a link (including
 the percent-decoding it applies), the tag stripper applied to search
 snippets, and the filter that turns a parsed page's link list into titles.
 The HTTP calls around them are not modelled; their answers are parameters
 elsewhere.
 */
module WikiLinks {
  import opened GameTypes
  import opened Text

  // ---------------------------------------------------------------------
  // Link legality
  // ---------------------------------------------------------------------

  /** The link rule exactly as written: the article path, no colon, no fragment, and not a File/Category/Template page. */
  predicate IsValidWikipediaLink(href: string) {
    && StartsWith(href, "/wiki/")
    && ':' !in href
    && '#' !in href
    && !StartsWith(href, "/wiki/File:")
    && !StartsWith(href, "/wiki/Category:")
    && !StartsWith(href, "/wiki/Template:")
  }

  /** A prefix containing a colon can only start a string that contains a colon. */
  lemma ColonPrefix(href: string, p: string, k: nat)
    requires k < |p| && p[k] == ':'
    requires StartsWith(href, p)
    ensures ':' in href
  {
  }

  /**
   The namespace clauses never decide anything: a link is legal exactly when
   it starts with the article path and contains neither ':' nor '#'.
   */
  lemma ValidLinkCharacterization(href: string)
    ensures IsValidWikipediaLink(href) <==> StartsWith(href, "/wiki/") && ':' !in href && '#' !in href
  {
    if StartsWith(href, "/wiki/File:") {
      ColonPrefix(href, "/wiki/File:", 10);
    }
    if StartsWith(href, "/wiki/Category:") {
      ColonPrefix(href, "/wiki/Category:", 14);
    }
    if StartsWith(href, "/wiki/Template:") {
      ColonPrefix(href, "/wiki/Template:", 14);
    }
  }

  /** The documented example of a legal move. */
  lemma ValidLinkExample()
    ensures IsValidWikipediaLink("/wiki/Albert_Einstein")
  {
    var h := "/wiki/Albert_Einstein";
    assert h[..6] == "/wiki/";
    assert ':' !in h && '#' !in h;
    ValidLinkCharacterization(h);
  }

  /** An external URL, a namespaced page and a fragment link are not legal moves. */
  lemma InvalidLinkExamples()
    ensures !IsValidWikipediaLink("https://example.com")
    ensures !IsValidWikipediaLink("/wiki/Category:Physics")
    ensures !IsValidWikipediaLink("/wiki/File:Photo.jpg")
    ensures !IsValidWikipediaLink("/wiki/Quantum_mechanics#History")
  {
  }

  // ---------------------------------------------------------------------
  // Percent-decoding (ECMAScript decodeURIComponent)
  // ---------------------------------------------------------------------

  /** The value of one hexadecimal digit. */
  function HexDigit(c: char): Option<int> {
    if '0' <= c <= '9' then Some(c as int - '0' as int)
    else if 'a' <= c <= 'f' then Some(c as int - 'a' as int + 10)
    else if 'A' <= c <= 'F' then Some(c as int - 'A' as int + 10)
    else None
  }

  /** The octet spelled by the two hexadecimal digits at `k`, if both are there and are digits. */
  function HexOctet(s: string, k: nat): (r: Option<int>)
    ensures r.Some? ==> k + 2 <= |s| && 0 <= r.value < 256
  {
    if k + 2 > |s| then None
    else
      match (HexDigit(s[k]), HexDigit(s[k + 1]))
      case (Some(hi), Some(lo)) => assert 0 <= hi < 16 && 0 <= lo < 16; Some(hi * 16 + lo)
      case _ => None
  }

  /** The number of leading one bits of an octet (5 stands for "five or more"). */
  function LeadingOnes(b: int): nat
    requires 0 <= b < 256
  {
    if b < 0x80 then 0
    else if b < 0xC0 then 1
    else if b < 0xE0 then 2
    else if b < 0xF0 then 3
    else if b < 0xF8 then 4
    else 5
  }

  /** The octets of `count` consecutive "%XX" escapes starting at `k`, or None if any is missing or malformed. */
  function Continuations(s: string, k: nat, count: nat): (r: Option<seq<int>>)
    requires k <= |s|
    ensures r.Some? ==> k + 3 * count <= |s|
    ensures r.Some? ==> |r.value| == count && forall i :: 0 <= i < count ==> 0 <= r.value[i] < 256
    decreases count
  {
    if count == 0 then Some([])
    else if k + 3 > |s| || s[k] != '%' then None
    else
      match HexOctet(s, k + 1)
      case None => None
      case Some(b) =>
        match Continuations(s, k + 3, count - 1)
        case None => None
        case Some(rest) => Some([b] + rest)
  }

  /** The smallest code point a UTF-8 sequence of `n` octets may encode (shorter forms are overlong). */
  function MinCodePoint(n: nat): int {
    if n == 2 then 0x80 else if n == 3 then 0x800 else 0x10000
  }

  /**
   The character a multi-octet UTF-8 sequence encodes, or None when the
   sequence is not a valid encoding: a continuation octet outside 80..BF, an
   overlong form, a surrogate, or a value above U+10FFFF.
   */
  function Utf8Char(lead: int, cont: seq<int>): (r: Option<char>)
    requires 2 <= |cont| + 1 <= 4
    requires 0 <= lead < 256 && LeadingOnes(lead) == |cont| + 1
    requires forall i :: 0 <= i < |cont| ==> 0 <= cont[i] < 256
  {
    var n := |cont| + 1;
    if exists i :: 0 <= i < |cont| && !(0x80 <= cont[i] < 0xC0) then None
    else
      var cp :=
        if n == 2 then (lead - 0xC0) * 64 + (cont[0] - 0x80)
        else if n == 3 then (lead - 0xE0) * 4096 + (cont[0] - 0x80) * 64 + (cont[1] - 0x80)
        else (lead - 0xF0) * 262144 + (cont[0] - 0x80) * 4096 + (cont[1] - 0x80) * 64 + (cont[2] - 0x80);
      if MinCodePoint(n) <= cp <= 0x10FFFF && !(0xD800 <= cp <= 0xDFFF) then Some(cp as char) else None
  }

  /**
   Decodes the escape at the head of `s` (which starts with '%'): the decoded
   character and how many characters of `s` it used, or None for the
   URIError the standard throws.
   */
  function DecodeEscape(s: string): (r: Option<(char, nat)>)
    requires |s| > 0 && s[0] == '%'
    ensures r.Some? ==> 3 <= r.value.1 <= |s|
  {
    match HexOctet(s, 1)
    case None => None
    case Some(b) =>
      var n := LeadingOnes(b);
      if n == 0 then Some((b as char, 3))
      else if n == 1 || n > 4 then None
      else
        match Continuations(s, 3, n - 1)
        case None => None
        case Some(cont) =>
          match Utf8Char(b, cont)
          case None => None
          case Some(c) => Some((c, 3 * n))
  }

  /**
   `decodeURIComponent`: every escape is decoded (its reserved set is empty);
   None stands for the URIError thrown on a malformed escape or invalid UTF-8.
   Text without '%' comes back unchanged, and decoding never lengthens text.
   */
  function PercentDecode(s: string): (r: Option<string>)
    ensures '%' !in s ==> r == Some(s)
    ensures r.Some? ==> |r.value| <= |s|
    decreases |s|
  {
    if s == [] then Some([])
    else if s[0] != '%' then
      assert '%' !in s ==> '%' !in s[1..];
      assert s == [s[0]] + s[1..];
      match PercentDecode(s[1..])
      case None => None
      case Some(t) => Some([s[0]] + t)
    else
      match DecodeEscape(s)
      case None => None
      case Some((c, used)) =>
        match PercentDecode(s[used..])
        case None => None
        case Some(t) => Some([c] + t)
  }

  /** The upper-case hexadecimal digit for 0..15, as the encoder writes it. */
  function HexChar(n: int): (c: char)
    requires 0 <= n < 16
    ensures HexDigit(c) == Some(n)
  {
    if n < 10 then ('0' as int + n) as char else ('A' as int + n - 10) as char
  }

  /** The characters `encodeURIComponent` leaves as they are: letters, digits and `-_.!~*'()`. */
  predicate IsUnreserved(c: char) {
    || ('a' <= c <= 'z') || ('A' <= c <= 'Z') || ('0' <= c <= '9')
    || c == '-' || c == '_' || c == '.' || c == '!' || c == '~' || c == '*' || c == '\'' || c == '(' || c == ')'
  }

  predicate IsAscii(c: char) {
    c as int < 0x80
  }

  /** `encodeURIComponent` on ASCII text: unreserved characters kept, every other one written as "%XY". */
  function EncodeAscii(s: string): (r: string)
    requires forall i :: 0 <= i < |s| ==> IsAscii(s[i])
    ensures |s| <= |r| <= 3 * |s|
  {
    if s == [] then []
    else
      var c := s[0];
      assert IsAscii(c);
      var head := if IsUnreserved(c) then [c] else ['%', HexChar(c as int / 16), HexChar(c as int % 16)];
      head + EncodeAscii(s[1..])
  }

  /** One escaped ASCII character in front of `rest` decodes to that character and leaves `rest`. */
  lemma DecodeAsciiEscape(c: char, rest: string)
    requires IsAscii(c)
    ensures var x := ['%', HexChar(c as int / 16), HexChar(c as int % 16)] + rest;
      DecodeEscape(x) == Some((c, 3)) && x[3..] == rest
  {
    var x := ['%', HexChar(c as int / 16), HexChar(c as int % 16)] + rest;
    assert HexOctet(x, 1) == Some(c as int);
  }

  /** Decoding undoes encoding: `decodeURIComponent(encodeURIComponent(s)) == s` for ASCII text. */
  lemma {:induction false} DecodeEncodeAscii(s: string)
    requires forall i :: 0 <= i < |s| ==> IsAscii(s[i])
    ensures PercentDecode(EncodeAscii(s)) == Some(s)
    decreases |s|
  {
    if s != [] {
      var c := s[0];
      var rest := EncodeAscii(s[1..]);
      DecodeEncodeAscii(s[1..]);
      if IsUnreserved(c) {
        var x := [c] + rest;
        assert EncodeAscii(s) == x;
        assert x[1..] == rest;
      } else {
        var x := ['%', HexChar(c as int / 16), HexChar(c as int % 16)] + rest;
        assert EncodeAscii(s) == x;
        DecodeAsciiEscape(c, rest);
      }
      assert [c] + s[1..] == s;
    }
  }

  /** Escapes decode as the standard says: "%5F" is an underscore, a lone '%' and an overlong form are errors. */
  lemma PercentDecodeExamples()
    ensures PercentDecode("%5F") == Some("_")
    ensures PercentDecode("%") == None
    ensures PercentDecode("%C0%80") == None
    ensures PercentDecode("%C3%A9") == Some("\U{00E9}")
  {
    DecodeUnderscoreExample();
    DecodeOverlongExample();
    DecodeTwoByteExample();
  }

  /** "%5F" is an escaped '_'. */
  lemma DecodeUnderscoreExample()
    ensures PercentDecode("%5F") == Some("_")
  {
    var u := "%5F";
    assert HexDigit(u[1]) == Some(5) && HexDigit(u[2]) == Some(15);
    assert DecodeEscape(u) == Some(('_', 3));
    assert PercentDecode(u[3..]) == Some([]);
    assert ['_'] + [] == "_";
  }

  /** "%C0%80" spells U+0000 in two bytes, an overlong form, and is refused. */
  lemma DecodeOverlongExample()
    ensures PercentDecode("%C0%80") == None
  {
    var o := "%C0%80";
    assert HexDigit(o[1]) == Some(12) && HexDigit(o[2]) == Some(0);
    assert HexDigit(o[4]) == Some(8) && HexDigit(o[5]) == Some(0);
    assert o[3] == '%';
    assert Continuations(o, 6, 0) == Some([]);
    assert [0x80] + [] == [0x80];
    assert Continuations(o, 3, 1) == Some([0x80]);
    assert Utf8Char(0xC0, [0x80]) == None;
  }

  /** "%C3%A9" is the two-byte UTF-8 form of U+00E9. */
  lemma DecodeTwoByteExample()
    ensures PercentDecode("%C3%A9") == Some("\U{00E9}")
  {
    var e := "%C3%A9";
    assert HexDigit(e[1]) == Some(12) && HexDigit(e[2]) == Some(3);
    assert HexDigit(e[4]) == Some(10) && HexDigit(e[5]) == Some(9);
    assert e[3] == '%';
    assert Continuations(e, 6, 0) == Some([]);
    assert [0xA9] + [] == [0xA9];
    assert Continuations(e, 3, 1) == Some([0xA9]);
    assert Utf8Char(0xC3, [0xA9]) == Some('\U{00E9}');
    assert DecodeEscape(e) == Some(('\U{00E9}', 6));
    assert PercentDecode(e[6..]) == Some([]);
    assert ['\U{00E9}'] + [] == "\U{00E9}";
  }

  // ---------------------------------------------------------------------
  // Title extraction
  // ---------------------------------------------------------------------

  /** The characters the regular expression's `.` refuses to match. */
  predicate IsLineTerminator(c: char) {
    c == '\n' || c == '\r' || c == '\U{2028}' || c == '\U{2029}'
  }

  /** "/wiki/" occurs in `url` at index `i`. */
  predicate ArticlePathAt(url: string, i: int) {
    0 <= i && i + 6 <= |url| && url[i..i + 6] == "/wiki/"
  }

  /** The pattern `/wiki/(.+)$` matches starting at index `i`. */
  predicate MatchesAt(url: string, i: int) {
    && ArticlePathAt(url, i)
    && i + 6 < |url|
    && forall k :: i + 6 <= k < |url| ==> !IsLineTerminator(url[k])
  }

  /** The leftmost index at or after `from` where the pattern matches. */
  function FirstMatch(url: string, from: nat): (r: Option<nat>)
    requires from <= |url|
    ensures r.Some? ==> from <= r.value && MatchesAt(url, r.value)
    ensures r.Some? ==> forall j :: from <= j < r.value ==> !MatchesAt(url, j)
    ensures r.None? ==> forall j :: from <= j ==> !MatchesAt(url, j)
    decreases |url| - from
  {
    if from == |url| then None
    else if MatchesAt(url, from) then Some(from)
    else FirstMatch(url, from + 1)
  }

  /**
   `extractTitleFromUrl`: the text after the leftmost match of `/wiki/(.+)$`,
   with every '_' turned into a space and THEN percent-decoded; "" when there
   is no match. None stands for the URIError the decoder throws.
   */
  function ExtractTitleFromUrl(url: string): (r: Option<string>)
    ensures (forall i :: !MatchesAt(url, i)) ==> r == Some("")
    ensures forall i :: MatchesAt(url, i) && (forall j :: 0 <= j < i ==> !MatchesAt(url, j)) ==>
              r == PercentDecode(ReplaceAll(url[i + 6..], '_', ' '))
  {
    match FirstMatch(url, 0)
    case None => Some("")
    case Some(k) =>
      assert forall i :: MatchesAt(url, i) && (forall j :: 0 <= j < i ==> !MatchesAt(url, j)) ==> i == k by {
        forall i | MatchesAt(url, i) && (forall j :: 0 <= j < i ==> !MatchesAt(url, j)) ensures i == k {
          if i != k {
            assert false;
          }
        }
      }
      PercentDecode(ReplaceAll(url[k + 6..], '_', ' '))
  }

  /** Without "/wiki/" followed by at least one more character, the title is empty. */
  lemma ExtractWithoutArticlePath(url: string)
    requires forall i :: ArticlePathAt(url, i) ==> i + 6 == |url|
    ensures ExtractTitleFromUrl(url) == Some("")
  {
  }

  /**
   For text without '%' or line breaks, the title is the suffix after the
   leftmost "/wiki/" with underscores replaced by spaces, so it has no '_'.
   */
  lemma ExtractPlainTitle(url: string, i: nat)
    requires ArticlePathAt(url, i) && i + 6 < |url|
    requires forall j :: 0 <= j < i ==> !ArticlePathAt(url, j)
    requires '%' !in url
    requires forall k :: 0 <= k < |url| ==> !IsLineTerminator(url[k])
    ensures ExtractTitleFromUrl(url) == Some(ReplaceAll(url[i + 6..], '_', ' '))
    ensures '_' !in ExtractTitleFromUrl(url).value
  {
    assert MatchesAt(url, i);
    var t := ReplaceAll(url[i + 6..], '_', ' ');
    assert '%' !in t by {
      forall k | 0 <= k < |t| ensures t[k] != '%' {
        assert url[i + 6 + k] in url;
      }
    }
  }

  /** A legal link of that kind yields the title spelled after "/wiki/". */
  lemma ExtractFromValidLink(href: string)
    requires IsValidWikipediaLink(href) && |href| > 6
    requires '%' !in href
    requires forall k :: 0 <= k < |href| ==> !IsLineTerminator(href[k])
    ensures ExtractTitleFromUrl(href) == Some(ReplaceAll(href[6..], '_', ' '))
  {
  }

  /**
   What the article viewer hands to the session for a click on `href`: the
   extracted title when the link is legal, extraction does not throw, and the
   title is non-empty; otherwise nothing happens.
   */
  function ClickTarget(href: string): (r: Option<string>)
    ensures r.Some? ==> IsValidWikipediaLink(href) && r.value != ""
    ensures r.Some? ==> Some(r.value) == ExtractTitleFromUrl(href)
    ensures IsValidWikipediaLink(href) && ExtractTitleFromUrl(href).Some? && ExtractTitleFromUrl(href).value != "" ==>
      r == ExtractTitleFromUrl(href)
  {
    if !IsValidWikipediaLink(href) then None
    else
      match ExtractTitleFromUrl(href)
      case None => None
      case Some(t) => if t == "" then None else Some(t)
  }

  /** A legal, non-empty, '%'-free article link always navigates, to its title with spaces for underscores. */
  lemma ClickTargetOfValidLink(href: string)
    requires IsValidWikipediaLink(href) && |href| > 6
    requires '%' !in href
    requires forall k :: 0 <= k < |href| ==> !IsLineTerminator(href[k])
    ensures ClickTarget(href) == Some(ReplaceAll(href[6..], '_', ' '))
  {
  }

  /** Underscores in the example title become spaces. */
  lemma ReplaceExample()
    ensures ReplaceAll("Albert_Einstein", '_', ' ') == "Albert Einstein"
  {
    var first, last := "Albert", "Einstein";
    assert "Albert_Einstein" == first + ['_'] + last by {}
    assert first + [' '] + last == "Albert Einstein" by {}
    assert '_' !in first && '_' !in last by {}
    ReplaceAllOnce(first, last, '_', ' ');
  }

  /** The example link holds no escape and no line terminator. */
  lemma EinsteinLinkIsPlain()
    ensures var h := "/wiki/Albert_Einstein";
      '%' !in h && (forall k :: 0 <= k < |h| ==> !IsLineTerminator(h[k])) && |h| > 6 && h[6..] == "Albert_Einstein"
  {
  }

  /** The worked example: the Einstein link navigates to "Albert Einstein". */
  lemma ClickTargetExample()
    ensures ClickTarget("/wiki/Albert_Einstein") == Some("Albert Einstein")
  {
    ValidLinkExample();
    EinsteinLinkIsPlain();
    ClickTargetOfValidLink("/wiki/Albert_Einstein");
    ReplaceExample();
  }

  // ---------------------------------------------------------------------
  // Search-snippet tag stripping
  // ---------------------------------------------------------------------

  /** The index of the first `c` in `s`. */
  function IndexOf(s: string, c: char): (i: nat)
    requires c in s
    ensures i < |s| && s[i] == c && c !in s[..i]
  {
    if s[0] == c then 0 else 1 + IndexOf(s[1..], c)
  }

  /** No '<' in `t` is followed, anywhere later, by a '>': nothing tag-like is left. */
  predicate NoTag(t: string) {
    forall i, j :: 0 <= i < j < |t| && t[i] == '<' ==> t[j] != '>'
  }

  /**
   `snippet.replace(/<[^>]*>/g, '')`: scanning left to right, each '<' that
   has a '>' somewhere after it is removed together with everything up to
   and including the first such '>'; a '<' with no later '>' stays.
   */
  function StripTags(s: string): (r: string)
    ensures NoTag(r)
    ensures forall c :: c in r ==> c in s
    ensures '<' !in s ==> r == s
    decreases |s|
  {
    if s == [] then []
    else if s[0] == '<' && '>' in s[1..] then
      var rest := s[IndexOf(s[1..], '>') + 2..];
      assert forall c :: c in rest ==> c in s;
      StripTags(rest)
    else
      var t := StripTags(s[1..]);
      assert forall c :: c in t ==> c in s;
      assert s[0] == '<' ==> '>' !in t;
      [s[0]] + t
  }

  /** Text with nothing tag-like in it passes through the stripper unchanged. */
  lemma {:induction false} StripTagsKeepsTagFree(t: string)
    requires NoTag(t)
    ensures StripTags(t) == t
    decreases |t|
  {
    if t != [] {
      assert NoTag(t[1..]) by {
        forall i, j | 0 <= i < j < |t[1..]| && t[1..][i] == '<' ensures t[1..][j] != '>' {
          assert t[i + 1] == '<';
        }
      }
      StripTagsKeepsTagFree(t[1..]);
      if t[0] == '<' {
        assert '>' !in t[1..] by {
          forall k | 0 <= k < |t[1..]| ensures t[1..][k] != '>' {
            assert t[k + 1] == t[1..][k];
          }
        }
      }
    }
  }

  /** A `c` at `k` with none before it is the first `c`. */
  lemma IndexOfAt(u: string, c: char, k: nat)
    requires k < |u| && u[k] == c && c !in u[..k]
    ensures c in u && IndexOf(u, c) == k
  {
    assert c in u;
  }

  /** A tag at the very front is removed, '<' through the first '>', and the rest is stripped on its own. */
  lemma StripTagsAtTag(t: string, b: string)
    requires '>' !in t
    ensures StripTags("<" + t + ">" + b) == StripTags(b)
  {
    var s := "<" + t + ">" + b;
    var u := t + ">" + b;
    assert s[1..] == u;
    assert u[..|t|] == t;
    IndexOfAt(u, '>', |t|);
    assert s[|t| + 2..] == b;
  }

  /** Text without '<' in front passes through the stripper, whatever follows it. */
  lemma {:induction false} StripTagsKeepsPlainPrefix(a: string, r: string)
    requires '<' !in a
    ensures StripTags(a + r) == a + StripTags(r)
    decreases |a|
  {
    if a == [] {
      assert a + r == r;
    } else {
      var s := a + r;
      assert StripTags(s) == [a[0]] + StripTags(a[1..] + r) by {
        assert s[0] == a[0] && s[1..] == a[1..] + r;
        StripTagsPlainHead(s);
      }
      assert StripTags(a[1..] + r) == a[1..] + StripTags(r) by {
        assert '<' !in a[1..];
        StripTagsKeepsPlainPrefix(a[1..], r);
      }
      ConsTail(a, StripTags(r));
    }
  }

  /** A non-empty sequence is its head in front of its tail, whatever follows. */
  lemma ConsTail<T>(a: seq<T>, x: seq<T>)
    requires a != []
    ensures [a[0]] + (a[1..] + x) == a + x
  {
    assert [a[0]] + a[1..] == a;
  }

  /** A first character other than '<' is kept, and the rest is stripped on its own. */
  lemma StripTagsPlainHead(s: string)
    requires s != [] && s[0] != '<'
    ensures StripTags(s) == [s[0]] + StripTags(s[1..])
  {
  }

  /**
   The stripper keeps the text in front of the first tag and removes that
   tag, '<' through the first '>', and nothing more: the rest is stripped on
   its own.
   */
  lemma StripTagsRemovesFirstTag(a: string, t: string, b: string)
    requires '<' !in a && '>' !in t
    ensures StripTags(a + "<" + t + ">" + b) == a + StripTags(b)
  {
    var r := "<" + t + ">" + b;
    assert a + "<" + t + ">" + b == a + r;
    StripTagsKeepsPlainPrefix(a, r);
    StripTagsAtTag(t, b);
  }

  /** Stripping twice is the same as stripping once. */
  lemma StripTagsIdempotent(s: string)
    ensures StripTags(StripTags(s)) == StripTags(s)
  {
  }

  // ---------------------------------------------------------------------
  // Page-links filter
  // ---------------------------------------------------------------------

  /** One entry of a parsed page's link list: its namespace and its title. */
  datatype PageLink = PageLink(ns: int, title: string)

  /** The most link titles a page's content record keeps. */
  const MaxPageLinks := 100

  /** The titles of the main-namespace (0) links, in list order: the reference definition. */
  function MainNamespaceTitles(links: seq<PageLink>): (ts: seq<string>)
    ensures |ts| <= |links|
    ensures forall i :: 0 <= i < |ts| ==> PageLink(0, ts[i]) in links
  {
    if links == [] then []
    else
      var rest := MainNamespaceTitles(links[1..]);
      assert forall i :: 0 <= i < |rest| ==> PageLink(0, rest[i]) in links by {
        assert forall l :: l in links[1..] ==> l in links;
      }
      (if links[0].ns == 0 then [links[0].title] else []) + rest
  }

  /** The filter is order-preserving: it distributes over concatenation. */
  lemma {:induction false} MainNamespaceTitlesAppend(a: seq<PageLink>, b: seq<PageLink>)
    ensures MainNamespaceTitles(a + b) == MainNamespaceTitles(a) + MainNamespaceTitles(b)
    decreases |a|
  {
    if a == [] {
      assert a + b == b;
    } else {
      assert (a + b)[1..] == a[1..] + b;
      MainNamespaceTitlesAppend(a[1..], b);
    }
  }

  /**
   The `links` field of a page's content record: the first 100 titles of the
   main-namespace links in list order, and none when the response has no
   link list.
   */
  method PageLinkTitles(links: Option<seq<PageLink>>) returns (r: seq<string>)
    ensures links.None? ==> r == []
    ensures links.Some? ==> |r| == (if |MainNamespaceTitles(links.value)| < MaxPageLinks then |MainNamespaceTitles(links.value)| else MaxPageLinks)
    ensures links.Some? ==> r == MainNamespaceTitles(links.value)[..|r|]
  {
    r := [];
    if links.None? {
      return;
    }
    var ls := links.value;
    var i := 0;
    while i < |ls| && |r| < MaxPageLinks
      invariant 0 <= i <= |ls|
      invariant r == MainNamespaceTitles(ls[..i])
      invariant |r| <= MaxPageLinks
    {
      MainNamespaceTitlesAppend(ls[..i], [ls[i]]);
      assert ls[..i + 1] == ls[..i] + [ls[i]];
      if ls[i].ns == 0 {
        r := r + [ls[i].title];
      }
      i := i + 1;
    }
    MainNamespaceTitlesAppend(ls[..i], ls[i..]);
    assert ls[..i] + ls[i..] == ls;
  }
}
