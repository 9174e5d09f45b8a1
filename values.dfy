/** Display values: sentiment labels and colour classes, and the URL of a
    company's stock logo. */
module Values {
  import opened Wrappers
  import opened Strings
  import opened CompanyTypes

  /** The wire name of a sentiment, as the API sends it. */
  function SentimentName(s: Sentiment): string {
    match s
    case Positive => "positive"
    case Negative => "negative"
    case Neutral => "neutral"
    case SlightlyPositive => "slightlyPositive"
    case SlightlyNegative => "slightlyNegative"
  }

  /** A string the API may send as a sentiment. */
  predicate IsSentimentName(s: string) {
    s == "positive" || s == "negative" || s == "neutral"
    || s == "slightlyPositive" || s == "slightlyNegative"
  }

  /** The label a sentiment is shown with; `''` for anything else, including
      an absent sentiment. */
  function SentimentLabel(sentiment: Option<string>): (text: string)
    ensures text == "" <==> !(sentiment.Some? && IsSentimentName(sentiment.value))
  {
    if sentiment == Some("positive") then "긍정"
    else if sentiment == Some("negative") then "부정"
    else if sentiment == Some("neutral") then "중립"
    else if sentiment == Some("slightlyPositive") then "약간 긍정"
    else if sentiment == Some("slightlyNegative") then "약간 부정"
    else ""
  }

  /** The five sentiments have five different labels. */
  lemma SentimentLabelsDistinct(a: Sentiment, b: Sentiment)
    requires a != b
    ensures SentimentLabel(Some(SentimentName(a))) != SentimentLabel(Some(SentimentName(b)))
  {
  }

  const GrayClasses := "border-gray-300 text-gray-600 bg-gray-50"

  /** The colour classes of a sentiment badge; gray for anything else. */
  function SentimentColor(sentiment: Option<string>): (classes: string)
    ensures classes == GrayClasses <==> !(sentiment.Some? && IsSentimentName(sentiment.value))
  {
    if sentiment == Some("positive") then "border-green-300 text-green-700 bg-green-50"
    else if sentiment == Some("slightlyPositive") then "border-emerald-300 text-emerald-700 bg-emerald-50"
    else if sentiment == Some("neutral") then "border-yellow-300 text-yellow-700 bg-yellow-50"
    else if sentiment == Some("slightlyNegative") then "border-orange-300 text-orange-700 bg-orange-50"
    else if sentiment == Some("negative") then "border-red-300 text-red-700 bg-red-50"
    else GrayClasses
  }

  /** The five sentiments have five different colour classes. */
  lemma SentimentColorsDistinct(a: Sentiment, b: Sentiment)
    requires a != b
    ensures SentimentColor(Some(SentimentName(a))) != SentimentColor(Some(SentimentName(b)))
  {
    BadgeColors();
  }

  /** The badge classes of each sentiment: green, emerald, yellow, orange
      and red from most positive to most negative. */
  lemma BadgeColors()
    ensures SentimentColor(Some("positive")) == "border-green-300 text-green-700 bg-green-50"
    ensures SentimentColor(Some("slightlyPositive")) == "border-emerald-300 text-emerald-700 bg-emerald-50"
    ensures SentimentColor(Some("neutral")) == "border-yellow-300 text-yellow-700 bg-yellow-50"
    ensures SentimentColor(Some("slightlyNegative")) == "border-orange-300 text-orange-700 bg-orange-50"
    ensures SentimentColor(Some("negative")) == "border-red-300 text-red-700 bg-red-50"
  {
  }

  /** Characters `encodeURIComponent` leaves as they are. */
  predicate IsUriUnreserved(c: char) {
    ('A' <= c <= 'Z') || ('a' <= c <= 'z') || ('0' <= c <= '9')
    || c in "-_.!~*'()"
  }

  predicate IsUpperHex(c: char) {
    ('0' <= c <= '9') || ('A' <= c <= 'F')
  }

  /** The upper-case hexadecimal digit of `n`; HexValue reads it back. */
  function HexDigit(n: nat): (c: char)
    requires n < 16
    ensures IsUpperHex(c) && HexValue(c) == n
  {
    if n < 10 then ('0' as int + n) as char else ('A' as int + n - 10) as char
  }

  function HexValue(c: char): (n: nat)
    requires IsUpperHex(c)
    ensures n < 16
  {
    if '0' <= c <= '9' then c as int - '0' as int else c as int - 'A' as int + 10
  }

  /** The UTF-8 encoding of one Unicode scalar value. */
  function Utf8(c: char): (bytes: seq<nat>)
    ensures 1 <= |bytes| <= 4
    ensures forall i :: 0 <= i < |bytes| ==> bytes[i] < 256
  {
    var cp := c as int;
    if cp < 0x80 then [cp]
    else if cp < 0x800 then [0xC0 + cp / 64, 0x80 + cp % 64]
    else if cp < 0x10000 then [0xE0 + cp / 4096, 0x80 + (cp / 64) % 64, 0x80 + cp % 64]
    else [0xF0 + cp / 262144, 0x80 + (cp / 4096) % 64, 0x80 + (cp / 64) % 64, 0x80 + cp % 64]
  }

  /** How many bytes a UTF-8 sequence with this lead byte has; 0 for a byte
      that cannot lead one. */
  function Utf8Length(lead: nat): nat {
    if lead < 0x80 then 1
    else if 0xC0 <= lead < 0xE0 then 2
    else if 0xE0 <= lead < 0xF0 then 3
    else if 0xF0 <= lead < 0xF8 then 4
    else 0
  }

  /** The code point a sequence of one to four UTF-8 bytes spells: the
      payload bits of the lead byte, then six bits per continuation byte. */
  function Utf8Value(bytes: seq<nat>): int
    requires 1 <= |bytes| <= 4
  {
    if |bytes| == 1 then bytes[0]
    else if |bytes| == 2 then (bytes[0] as int - 0xC0) * 64 + (bytes[1] as int - 0x80)
    else if |bytes| == 3 then (bytes[0] as int - 0xE0) * 4096 + (bytes[1] as int - 0x80) * 64 + (bytes[2] as int - 0x80)
    else (bytes[0] as int - 0xF0) * 262144 + (bytes[1] as int - 0x80) * 4096 + (bytes[2] as int - 0x80) * 64 + (bytes[3] as int - 0x80)
  }

  /** Decoding the UTF-8 bytes of a character gives the character back, and
      the lead byte announces the right length. */
  lemma Utf8RoundTrip(c: char)
    ensures Utf8Length(Utf8(c)[0]) == |Utf8(c)|
    ensures Utf8Value(Utf8(c)) == c as int
  {
    var cp := c as int;
    if cp < 0x80 {
    } else if cp < 0x800 {
      assert cp == 64 * (cp / 64) + cp % 64;
    } else if cp < 0x10000 {
      Split64(cp / 64);
      assert cp / 64 / 64 == cp / 4096;
      assert cp == 64 * (cp / 64) + cp % 64;
    } else {
      Split64(cp / 64);
      Split64(cp / 4096);
      assert cp / 64 / 64 == cp / 4096;
      assert cp / 4096 / 64 == cp / 262144;
      assert cp == 64 * (cp / 64) + cp % 64;
    }
  }

  lemma Split64(x: int)
    ensures x == 64 * (x / 64) + x % 64 && 0 <= x % 64 < 64
  {
  }

  /** `%XY` for every byte, with upper-case hexadecimal digits. */
  function PercentEncode(bytes: seq<nat>): (r: string)
    requires forall i :: 0 <= i < |bytes| ==> bytes[i] < 256
    ensures |r| == 3 * |bytes|
    ensures forall i :: 0 <= i < |r| ==> r[i] == '%' || IsUpperHex(r[i])
  {
    if bytes == [] then []
    else ['%', HexDigit(bytes[0] / 16), HexDigit(bytes[0] % 16)] + PercentEncode(bytes[1..])
  }

  /** The bytes of a run of `%XY` triples; none when the text is not one. */
  function PercentDecode(s: string): (bytes: Option<seq<nat>>)
    ensures bytes.Some? ==> 3 * |bytes.value| == |s|
    ensures bytes.Some? ==> forall i :: 0 <= i < |bytes.value| ==> bytes.value[i] < 256
    decreases |s|
  {
    if s == [] then Some([])
    else if |s| < 3 || s[0] != '%' || !IsUpperHex(s[1]) || !IsUpperHex(s[2]) then None
    else
      match PercentDecode(s[3..])
      case None => None
      case Some(rest) => Some([16 * HexValue(s[1]) + HexValue(s[2])] + rest)
  }

  /** Percent-decoding undoes percent-encoding. */
  lemma {:induction false} PercentRoundTrip(bytes: seq<nat>)
    requires forall i :: 0 <= i < |bytes| ==> bytes[i] < 256
    ensures PercentDecode(PercentEncode(bytes)) == Some(bytes)
  {
    if bytes != [] {
      var b, rest := bytes[0], bytes[1..];
      PercentRoundTrip(rest);
      PercentDecodeTriple(b, PercentEncode(rest), rest);
      assert PercentEncode(bytes) == ['%', HexDigit(b / 16), HexDigit(b % 16)] + PercentEncode(rest);
      assert bytes == [b] + rest;
    }
  }

  /** A `%XY` triple in front of decodable text adds its byte in front. */
  lemma PercentDecodeTriple(b: nat, e: string, rest: seq<nat>)
    requires b < 256 && PercentDecode(e) == Some(rest)
    ensures PercentDecode(['%', HexDigit(b / 16), HexDigit(b % 16)] + e) == Some([b] + rest)
  {
    var s := ['%', HexDigit(b / 16), HexDigit(b % 16)] + e;
    assert s[3..] == e;
    assert 16 * (b / 16) + b % 16 == b;
  }

  /** Output alphabet of `encodeURIComponent`. */
  predicate IsEncodedChar(c: char) {
    IsUriUnreserved(c) || c == '%' || IsUpperHex(c)
  }

  /** `encodeURIComponent(s)`: unreserved characters pass, every other
      character becomes the percent-encoding of its UTF-8 bytes. The result
      never holds a URL delimiter such as `/`, `?`, `&` or `#`. */
  function EncodeUriComponent(s: string): (r: string)
    ensures forall i :: 0 <= i < |r| ==> IsEncodedChar(r[i])
  {
    if s == [] then []
    else EncodeChar(s[0]) + EncodeUriComponent(s[1..])
  }

  /** The encoding of one character. */
  function EncodeChar(c: char): (r: string)
    ensures forall i :: 0 <= i < |r| ==> IsEncodedChar(r[i])
  {
    if IsUriUnreserved(c) then [c] else PercentEncode(Utf8(c))
  }

  /** A code point that is a Dafny `char`: a Unicode scalar value. */
  predicate IsScalarValue(cp: int) {
    0 <= cp < 0xD800 || 0xE000 <= cp < 0x110000
  }

  /** `decodeURIComponent` on the texts `encodeURIComponent` can produce: a
      `%` starts the percent-encoded UTF-8 bytes of one character, and any
      other character stands for itself. None for text that is not such an
      encoding. */
  function DecodeUriComponent(s: string): (r: Option<string>)
    decreases |s|
  {
    if s == [] then Some([])
    else if s[0] != '%' then
      match DecodeUriComponent(s[1..])
      case None => None
      case Some(rest) => Some([s[0]] + rest)
    else if |s| < 3 || !IsUpperHex(s[1]) || !IsUpperHex(s[2]) then None
    else
      var n := Utf8Length(16 * HexValue(s[1]) + HexValue(s[2]));
      if n == 0 || |s| < 3 * n then None
      else
        match PercentDecode(s[..3 * n])
        case None => None
        case Some(bytes) =>
          var cp := Utf8Value(bytes);
          if !IsScalarValue(cp) then None
          else
            match DecodeUriComponent(s[3 * n..])
            case None => None
            case Some(rest) => Some([cp as char] + rest)
  }

  /** Decoding the encoding of one character in front of decodable text
      yields the character in front of the decoded text. */
  lemma DecodeEncodedChar(c: char, t: string)
    requires DecodeUriComponent(t).Some?
    ensures DecodeUriComponent(EncodeChar(c) + t) == Some([c] + DecodeUriComponent(t).value)
  {
    if IsUriUnreserved(c) {
      var s := [c] + t;
      assert s[0] == c && s[1..] == t;
    } else {
      DecodePercentChar(c, t);
    }
  }

  lemma DecodePercentChar(c: char, t: string)
    requires !IsUriUnreserved(c) && DecodeUriComponent(t).Some?
    ensures DecodeUriComponent(PercentEncode(Utf8(c)) + t) == Some([c] + DecodeUriComponent(t).value)
  {
    var bytes := Utf8(c);
    var e := PercentEncode(bytes);
    var n := |bytes|;
    PercentLead(bytes);
    Utf8RoundTrip(c);
    PercentRoundTrip(bytes);
    var s := e + t;
    assert s[0] == '%' && s[1] == e[1] && s[2] == e[2];
    assert s[..3 * n] == e;
    assert s[3 * n..] == t;
  }

  /** The first triple of a percent-encoding spells its first byte. */
  lemma PercentLead(bytes: seq<nat>)
    requires bytes != [] && forall i :: 0 <= i < |bytes| ==> bytes[i] < 256
    ensures var e := PercentEncode(bytes);
      && e[0] == '%' && IsUpperHex(e[1]) && IsUpperHex(e[2])
      && 16 * HexValue(e[1]) + HexValue(e[2]) == bytes[0]
  {
    var b := bytes[0];
    assert PercentEncode(bytes) == ['%', HexDigit(b / 16), HexDigit(b % 16)] + PercentEncode(bytes[1..]);
    assert 16 * (b / 16) + b % 16 == b;
  }

  /** Decoding undoes `encodeURIComponent`: the encoding loses nothing, so
      different texts have different encodings. */
  lemma {:induction false} DecodeEncode(s: string)
    ensures DecodeUriComponent(EncodeUriComponent(s)) == Some(s)
    decreases |s|
  {
    if s != [] {
      DecodeEncode(s[1..]);
      DecodeEncodedChar(s[0], EncodeUriComponent(s[1..]));
      assert s == [s[0]] + s[1..];
    }
  }

  /** Encoding works character by character. */
  lemma {:induction false} EncodeUriComponentAppend(a: string, b: string)
    ensures EncodeUriComponent(a + b) == EncodeUriComponent(a) + EncodeUriComponent(b)
  {
    if a == [] {
      assert a + b == b;
    } else {
      var h := EncodeChar(a[0]);
      assert (a + b)[0] == a[0] && (a + b)[1..] == a[1..] + b;
      EncodeUriComponentAppend(a[1..], b);
      calc {
        EncodeUriComponent(a + b);
        h + EncodeUriComponent(a[1..] + b);
        h + (EncodeUriComponent(a[1..]) + EncodeUriComponent(b));
        { AppendAssoc(h, EncodeUriComponent(a[1..]), EncodeUriComponent(b)); }
        (h + EncodeUriComponent(a[1..])) + EncodeUriComponent(b);
        EncodeUriComponent(a) + EncodeUriComponent(b);
      }
    }
  }

  lemma AppendAssoc(x: string, y: string, z: string)
    ensures x + (y + z) == (x + y) + z
  {
  }

  /** A string of unreserved characters is its own encoding. */
  lemma {:induction false} EncodeUriComponentUnreserved(s: string)
    requires forall i :: 0 <= i < |s| ==> IsUriUnreserved(s[i])
    ensures EncodeUriComponent(s) == s
  {
    if s != [] {
      EncodeUriComponentUnreserved(s[1..]);
    }
  }

  const TossImagePrefix := "https://images.tossinvest.com/"
  const TossImageQuery := "?width=64&height=64"
  const TossIconPrefix := "https://static.toss.im/png-icons/securities/icn-sec-fill-"
  const EodhdPrefix := "https://eodhd.com/img/logos/US/"

  /** The logo URL for a stock code: none without a code; for a domestic stock
      (the default) the encoded Toss icon URL behind the Toss image service
      with a 64x64 query; otherwise the EODHD logo of the lower-cased code. */
  function StockImageUrl(code: Option<string>, isDomestic: bool := true): (url: Option<string>)
    ensures url.None? <==> code.None? || code.value == ""
    ensures url.Some? && isDomestic ==>
      var u := url.value;
      |u| >= |TossImagePrefix| + |TossImageQuery|
      && u[..|TossImagePrefix|] == TossImagePrefix
      && u[|u| - |TossImageQuery|..] == TossImageQuery
      && (forall i :: |TossImagePrefix| <= i < |u| - |TossImageQuery| ==> IsEncodedChar(u[i]))
    ensures url.Some? && !isDomestic ==>
      url.value == EodhdPrefix + AsciiLowerString(code.value) + ".png"
  {
    if code.None? || code.value == "" then None
    else if isDomestic then
      var encoded := EncodeUriComponent(TossIconPrefix + code.value + ".png");
      DomesticUrlShape(encoded);
      Some(TossImagePrefix + encoded + TossImageQuery)
    else
      Some(EodhdPrefix + AsciiLowerString(code.value) + ".png")
  }

  /** The image-service prefix, encoded text and the size query, in that
      order. */
  lemma DomesticUrlShape(encoded: string)
    requires forall i :: 0 <= i < |encoded| ==> IsEncodedChar(encoded[i])
    ensures var u := TossImagePrefix + encoded + TossImageQuery;
      |u| >= |TossImagePrefix| + |TossImageQuery|
      && u[..|TossImagePrefix|] == TossImagePrefix
      && u[|u| - |TossImageQuery|..] == TossImageQuery
      && (forall i :: |TossImagePrefix| <= i < |u| - |TossImageQuery| ==> IsEncodedChar(u[i]))
  {
    var u := TossImagePrefix + encoded + TossImageQuery;
    assert u[..|TossImagePrefix|] == TossImagePrefix;
    assert u[|u| - |TossImageQuery|..] == TossImageQuery;
    assert forall i :: |TossImagePrefix| <= i < |u| - |TossImageQuery| ==> u[i] == encoded[i - |TossImagePrefix|];
  }

  /** Behind any prefix, a code of unreserved characters and `.png` are
      carried through the encoding verbatim. */
  lemma {:induction false} EncodeUnreservedTail(prefix: string, code: string)
    requires forall i :: 0 <= i < |code| ==> IsUriUnreserved(code[i])
    ensures EncodeUriComponent(prefix + code + ".png") == EncodeUriComponent(prefix) + (code + ".png")
  {
    var tail := code + ".png";
    UnreservedPng(code);
    EncodeUriComponentUnreserved(tail);
    EncodeUriComponentAppend(prefix, tail);
    assert prefix + code + ".png" == prefix + tail;
  }

  /** The reserved characters of the icon URL become `%3A` and `%2F`. */
  lemma UrlDelimitersEncoded()
    ensures EncodeChar(':') == "%3A"
    ensures EncodeChar('/') == "%2F"
  {
    assert Utf8(':') == [0x3A] && Utf8('/') == [0x2F];
    assert PercentEncode([0x3A]) == ['%', HexDigit(3), HexDigit(10)] + PercentEncode([]);
    assert PercentEncode([0x2F]) == ['%', HexDigit(2), HexDigit(15)] + PercentEncode([]);
  }

  /** Different codes give different domestic logo URLs. */
  lemma DomesticUrlInjective(a: string, b: string)
    requires a != [] && b != []
    requires StockImageUrl(Some(a)) == StockImageUrl(Some(b))
    ensures a == b
  {
    var pa, pb := TossIconPrefix + a + ".png", TossIconPrefix + b + ".png";
    var ea, eb := EncodeUriComponent(pa), EncodeUriComponent(pb);
    var ua, ub := TossImagePrefix + ea + TossImageQuery, TossImagePrefix + eb + TossImageQuery;
    assert StockImageUrl(Some(a)) == Some(ua) && StockImageUrl(Some(b)) == Some(ub);
    assert ea == ua[|TossImagePrefix|..|ua| - |TossImageQuery|];
    assert eb == ub[|TossImagePrefix|..|ub| - |TossImageQuery|];
    DecodeEncode(pa);
    DecodeEncode(pb);
    assert a == pa[|TossIconPrefix|..|pa| - 4];
    assert b == pb[|TossIconPrefix|..|pb| - 4];
  }

  lemma UnreservedPng(code: string)
    requires forall i :: 0 <= i < |code| ==> IsUriUnreserved(code[i])
    ensures forall i :: 0 <= i < |code + ".png"| ==> IsUriUnreserved((code + ".png")[i])
  {
    var tail := code + ".png";
    assert forall i :: |code| <= i < |tail| ==> tail[i] in ".png";
  }

  /** For a code of letters and digits the domestic URL carries the code
      verbatim between the encoded icon prefix and `.png`. */
  lemma DomesticUrlCarriesCode(code: string)
    requires code != []
    requires forall i :: 0 <= i < |code| ==> IsUriUnreserved(code[i])
    ensures StockImageUrl(Some(code)) ==
      Some(TossImagePrefix + (EncodeUriComponent(TossIconPrefix) + (code + ".png")) + TossImageQuery)
  {
    var encoded := EncodeUriComponent(TossIconPrefix + code + ".png");
    assert StockImageUrl(Some(code)) == Some(TossImagePrefix + encoded + TossImageQuery);
    EncodeUnreservedTail(TossIconPrefix, code);
  }
}
