/**
 * `handle_request`: which page a request gets and, for the text and clear
 * routes, the message for the display. The request is taken after UTF-8
 * decoding, as a sequence of characters; every pattern searched for is ASCII,
 * so byte offsets in the source and character offsets here pick the same
 * characters.
 */
module Http {
  import opened Wrappers

  type String = seq<char>

  /** The capacity, in UTF-8 bytes, of the `heapless::String<32>` the message is decoded into. */
  const Capacity: nat := 32

  /** `HTML_PAGE` and `HTTP_NOT_FOUND`; their contents are not modelled. */
  datatype Page = HtmlPage | NotFound

  datatype Response = Response(page: Page, text: Option<String>)

  // ------------------------------------------------------------- searching

  predicate StartsWith(s: String, p: String)
  {
    |p| <= |s| && s[..|p|] == p
  }

  /** `p` occurs in `s` at index `i`. */
  predicate OccursAt(s: String, p: String, i: nat)
  {
    i + |p| <= |s| && s[i..i + |p|] == p
  }

  function FindFrom(s: String, p: String, i: nat): (r: Option<nat>)
    requires i <= |s|
    ensures r.Some? ==> i <= r.value && OccursAt(s, p, r.value)
    decreases |s| - i
  {
    if i + |p| > |s| then None
    else if s[i..i + |p|] == p then Some(i)
    else FindFrom(s, p, i + 1)
  }

  /** `str::find`: the first index where `p` occurs. */
  function Find(s: String, p: String): Option<nat>
  {
    FindFrom(s, p, 0)
  }

  /** `str::contains`. */
  predicate Contains(s: String, p: String)
  {
    Find(s, p).Some?
  }

  lemma {:induction false} FindFromFirst(s: String, p: String, i: nat)
    requires i <= |s|
    ensures FindFrom(s, p, i).Some? ==> forall j :: i <= j < FindFrom(s, p, i).value ==> !OccursAt(s, p, j)
    ensures FindFrom(s, p, i).None? ==> forall j :: i <= j ==> !OccursAt(s, p, j)
    decreases |s| - i
  {
    if i + |p| <= |s| && s[i..i + |p|] != p {
      FindFromFirst(s, p, i + 1);
    }
  }

  /** `Find` yields the first occurrence, and none exactly when there is none. */
  lemma FindFirst(s: String, p: String)
    ensures Find(s, p).Some? ==> OccursAt(s, p, Find(s, p).value)
    ensures Find(s, p).Some? ==> forall j :: 0 <= j < Find(s, p).value ==> !OccursAt(s, p, j)
    ensures Find(s, p).None? <==> forall j :: 0 <= j ==> !OccursAt(s, p, j)
  {
    FindFromFirst(s, p, 0);
  }

  /** The characters that end the message: `' '`, `'\r'` and `'\n'`. */
  predicate IsDelimiter(c: char)
  {
    c == ' ' || c == '\r' || c == '\n'
  }

  /** `find([' ', '\r', '\n']).unwrap_or(len)`, searching from index `i`. */
  function MessageEnd(s: String, i: nat): (e: nat)
    requires i <= |s|
    ensures i <= e <= |s|
    ensures forall j :: i <= j < e ==> !IsDelimiter(s[j])
    ensures e < |s| ==> IsDelimiter(s[e])
    decreases |s| - i
  {
    if i == |s| || IsDelimiter(s[i]) then i else MessageEnd(s, i + 1)
  }

  // -------------------------------------------------------------- decoding

  /** The bytes `c` takes in UTF-8 (`char::len_utf8`). */
  function Utf8Len(c: char): (n: nat)
    ensures 1 <= n <= 4
  {
    if c as int < 0x80 then 1 else if c as int < 0x800 then 2 else if c as int < 0x1_0000 then 3 else 4
  }

  /** The length in bytes of the UTF-8 encoding of `s`. */
  function Utf8Size(s: String): nat
  {
    if s == [] then 0 else Utf8Size(s[..|s| - 1]) + Utf8Len(s[|s| - 1])
  }

  /** `char::to_digit(16)`. */
  function HexValue(c: char): (v: Option<nat>)
    ensures v.Some? ==> v.value < 16
  {
    if '0' <= c <= '9' then Some(c as int - '0' as int)
    else if 'a' <= c <= 'f' then Some(c as int - 'a' as int + 10)
    else if 'A' <= c <= 'F' then Some(c as int - 'A' as int + 10)
    else None
  }

  /** One step of the decoder: the character it pushes, if any, and how many input characters it consumes. */
  datatype Token = Token(out: Option<char>, used: nat)

  function NextToken(s: String): (t: Token)
    requires |s| > 0
    ensures 1 <= t.used <= |s|
  {
    if s[0] == '%' then
      if |s| >= 3 && HexValue(s[1]).Some? && HexValue(s[2]).Some? then
        Token(Some((HexValue(s[1]).value * 16 + HexValue(s[2]).value) as char), 3)
      else
        Token(None, if |s| >= 3 then 3 else |s|)
    else if s[0] == '+' then Token(Some(' '), 1)
    else Token(Some(s[0]), 1)
  }

  /** Decoding the rest `s` of the input onto what is decoded so far, stopping at the first character that does not fit. */
  function DecodeOnto(s: String, out: String): String
    decreases |s|
  {
    if s == [] then out
    else
      var t := NextToken(s);
      match t.out
      case None => DecodeOnto(s[t.used..], out)
      case Some(c) =>
        if Utf8Size(out) + Utf8Len(c) > Capacity then out else DecodeOnto(s[t.used..], out + [c])
  }

  /** The URL decoding of the message. */
  function Decode(s: String): String
  {
    DecodeOnto(s, [])
  }

  /** The decoding loop of `handle_request`: a `while let` over the characters, pushing into a bounded string. */
  method UrlDecode(encoded: String) returns (decoded: String)
    ensures decoded == Decode(encoded)
  {
    decoded := [];
    var len := 0;
    var i := 0;
    while i < |encoded|
      invariant 0 <= i <= |encoded| && len == Utf8Size(decoded)
      invariant DecodeOnto(encoded[i..], decoded) == Decode(encoded)
    {
      ghost var rest := encoded[i..];
      var c := encoded[i];
      i := i + 1;
      if c == '%' {
        var h: Option<char> := None;
        var l: Option<char> := None;
        if i < |encoded| {
          h := Some(encoded[i]);
          i := i + 1;
        }
        if i < |encoded| {
          l := Some(encoded[i]);
          i := i + 1;
        }
        assert encoded[i..] == rest[NextToken(rest).used..];
        if h.Some? && l.Some? {
          var hv := HexValue(h.value);
          var lv := HexValue(l.value);
          if hv.Some? && lv.Some? {
            var ch := (hv.value * 16 + lv.value) as char;
            if len + Utf8Len(ch) > Capacity {
              break;
            }
            Utf8SizeSnoc(decoded, ch);
            decoded := decoded + [ch];
            len := len + Utf8Len(ch);
          }
        }
      } else if c == '+' {
        assert encoded[i..] == rest[1..];
        if len + Utf8Len(' ') > Capacity {
          break;
        }
        Utf8SizeSnoc(decoded, ' ');
        decoded := decoded + [' '];
        len := len + 1;
      } else {
        assert encoded[i..] == rest[1..];
        if len + Utf8Len(c) > Capacity {
          break;
        }
        Utf8SizeSnoc(decoded, c);
        decoded := decoded + [c];
        len := len + Utf8Len(c);
      }
    }
  }

  // --------------------------------------------------------------- routing

  /**
   * The text route: the message starts after the first `msg=` and ends at the
   * first delimiter. There is a message exactly when the request names the route.
   */
  function TextRoute(request: String): (r: Option<String>)
    ensures r.Some? <==> Contains(request, "GET /text?msg=")
  {
    if !Contains(request, "GET /text?msg=") then None
    else
      TextRouteHasMessage(request);
      match Find(request, "msg=")
      case None => None
      case Some(start) =>
        var remaining := request[start + 4..];
        Some(Decode(remaining[..MessageEnd(remaining, 0)]))
  }

  /**
   * `handle_request`: the page for the root, text and clear routes, and
   * not-found with no message for every other request. A message comes only
   * with the page, and it always fits in 32 UTF-8 bytes.
   */
  function HandleRequest(request: String): (r: Response)
    ensures r.page == NotFound <==>
      !StartsWith(request, "GET / ") && !Contains(request, "GET /text?msg=") && !Contains(request, "GET /clear")
    ensures r.page == NotFound ==> r.text.None?
    ensures r.text.Some? ==> Utf8Size(r.text.value) <= Capacity
  {
    RootPrefixes(request);
    DecodedFits(request);
    if StartsWith(request, "GET / ") || StartsWith(request, "GET / HTTP") then Response(HtmlPage, None)
    else
      match TextRoute(request)
      case Some(decoded) => Response(HtmlPage, Some(decoded))
      case None =>
        if Contains(request, "GET /clear") then Response(HtmlPage, Some([])) else Response(NotFound, None)
  }

  /** `handle_request` on the result of `str::from_utf8`: bytes that are not UTF-8 are read as the empty request. */
  function HandleBytes(utf8: Option<String>): Response
  {
    HandleRequest(if utf8.Some? then utf8.value else [])
  }

  // ---------------------------------------------------------------- lemmas

  lemma Utf8SizeSnoc(s: String, c: char)
    ensures Utf8Size(s + [c]) == Utf8Size(s) + Utf8Len(c)
  {
    assert (s + [c])[..|s|] == s;
  }

  lemma {:induction false} Utf8SizeAppend(a: String, b: String)
    ensures Utf8Size(a + b) == Utf8Size(a) + Utf8Size(b)
    decreases |b|
  {
    if b == [] {
      assert a + b == a;
    } else {
      var c := b[|b| - 1];
      var b0 := b[..|b| - 1];
      assert a + b == (a + b0) + [c];
      Utf8SizeSnoc(a + b0, c);
      Utf8SizeSnoc(b0, c);
      assert b0 + [c] == b;
      Utf8SizeAppend(a, b0);
    }
  }

  /** The decoder never pushes past the capacity. */
  lemma {:induction false} DecodeOntoFits(s: String, out: String)
    requires Utf8Size(out) <= Capacity
    ensures Utf8Size(DecodeOnto(s, out)) <= Capacity
    decreases |s|
  {
    if s != [] {
      var t := NextToken(s);
      if t.out.None? {
        DecodeOntoFits(s[t.used..], out);
      } else if Utf8Size(out) + Utf8Len(t.out.value) <= Capacity {
        Utf8SizeSnoc(out, t.out.value);
        DecodeOntoFits(s[t.used..], out + [t.out.value]);
      }
    }
  }

  /** Whatever the request, the decoded message fits in 32 UTF-8 bytes. */
  lemma DecodedFits(request: String)
    ensures TextRoute(request).Some? ==> Utf8Size(TextRoute(request).value) <= Capacity
  {
    match Find(request, "msg=")
    case None =>
    case Some(start) =>
      var remaining := request[start + 4..];
      DecodeOntoFits(remaining[..MessageEnd(remaining, 0)], []);
  }

  /** Text with neither `%` nor `+`. */
  predicate Plain(s: String)
  {
    forall j :: 0 <= j < |s| ==> s[j] != '%' && s[j] != '+'
  }

  /**
   * On plain text the decoder copies: it yields the longest prefix of the
   * input that fits, stopping at the first character that does not.
   */
  lemma {:induction false} DecodeOntoPlain(s: String, out: String)
    requires Plain(s)
    ensures |out| <= |DecodeOnto(s, out)| <= |out| + |s|
    ensures DecodeOnto(s, out) == out + s[..|DecodeOnto(s, out)| - |out|]
    ensures |DecodeOnto(s, out)| < |out| + |s| ==>
      Utf8Size(DecodeOnto(s, out)) + Utf8Len(s[|DecodeOnto(s, out)| - |out|]) > Capacity
    decreases |s|
  {
    if s == [] {
      assert out + s[..0] == out;
    } else {
      var c := s[0];
      assert NextToken(s) == Token(Some(c), 1);
      if Utf8Size(out) + Utf8Len(c) > Capacity {
        assert out + s[..0] == out;
      } else {
        var rest := s[1..];
        assert Plain(rest);
        DecodeOntoPlain(rest, out + [c]);
        var r := DecodeOnto(rest, out + [c]);
        var m := |r| - |out| - 1;
        assert out + [c] + rest[..m] == out + s[..m + 1];
      }
    }
  }

  lemma {:induction false} DecodeOntoPlainFits(s: String, out: String)
    requires Plain(s) && Utf8Size(out + s) <= Capacity
    ensures DecodeOnto(s, out) == out + s
    decreases |s|
  {
    if s == [] {
      assert out + s == out;
    } else {
      var c := s[0];
      var rest := s[1..];
      assert NextToken(s) == Token(Some(c), 1);
      assert out + s == (out + [c]) + rest;
      Utf8SizeAppend(out + [c], rest);
      Utf8SizeSnoc(out, c);
      assert Plain(rest);
      DecodeOntoPlainFits(rest, out + [c]);
    }
  }

  /** Plain text is copied up to the first character that would overflow the capacity. */
  lemma DecodePlain(s: String)
    requires Plain(s)
    ensures |Decode(s)| <= |s| && Decode(s) == s[..|Decode(s)|]
    ensures |Decode(s)| < |s| ==> Utf8Size(Decode(s)) + Utf8Len(s[|Decode(s)|]) > Capacity
    ensures Utf8Size(s) <= Capacity ==> Decode(s) == s
  {
    var empty: String := [];
    DecodeOntoPlain(s, empty);
    var r := DecodeOnto(s, empty);
    assert empty + s[..|r|] == s[..|r|];
    if Utf8Size(s) <= Capacity {
      assert empty + s == s;
      DecodeOntoPlainFits(s, empty);
    }
  }

  /** A `%` without two hex digits after it swallows up to two characters and pushes nothing. */
  lemma MalformedEscape(s: String, out: String)
    requires |s| > 0 && s[0] == '%'
    requires !(|s| >= 3 && HexValue(s[1]).Some? && HexValue(s[2]).Some?)
    ensures DecodeOnto(s, out) == DecodeOnto(s[if |s| >= 3 then 3 else |s|..], out)
  {
  }

  /**
   * A well-formed escape `%hl` pushes the character with code `16 h + l` and
   * consumes three characters; that character takes one UTF-8 byte of the
   * capacity below 0x80 and two from 0x80 on.
   */
  lemma EscapeCost(h: char, l: char, rest: String)
    requires HexValue(h).Some? && HexValue(l).Some?
    ensures var c := (HexValue(h).value * 16 + HexValue(l).value) as char;
      NextToken(['%', h, l] + rest) == Token(Some(c), 3) && Utf8Len(c) == if c as int < 0x80 then 1 else 2
  {
  }

  /**
   * The characters the decoder pushes when nothing limits it: a plain
   * character as itself, `+` as a space, a well-formed escape as its
   * character, a malformed escape as nothing.
   */
  function Pushes(s: String): String
    decreases |s|
  {
    if s == [] then []
    else
      var t := NextToken(s);
      (if t.out.Some? then [t.out.value] else []) + Pushes(s[t.used..])
  }

  /**
   * `r` is what the decoder yields from `out` and the pushes `p`: `out`
   * followed by a prefix of `p`, stopped only at a push that would overflow.
   */
  predicate CappedPrefix(out: String, p: String, r: String)
  {
    |out| <= |r| <= |out| + |p| && r == out + p[..|r| - |out|]
    && (|r| < |out| + |p| ==> Utf8Size(r) + Utf8Len(p[|r| - |out|]) > Capacity)
  }

  lemma {:induction false} DecodeOntoPushes(s: String, out: String)
    ensures CappedPrefix(out, Pushes(s), DecodeOnto(s, out))
    decreases |s|
  {
    if s == [] {
      assert out + Pushes(s)[..0] == out;
    } else {
      var t := NextToken(s);
      var rest := s[t.used..];
      var d := DecodeOnto(s, out);
      match t.out
      case None =>
        assert Pushes(s) == Pushes(rest);
        assert d == DecodeOnto(rest, out);
        DecodeOntoPushes(rest, out);
      case Some(c) =>
        var p := Pushes(s);
        assert p == [c] + Pushes(rest);
        if Utf8Size(out) + Utf8Len(c) > Capacity {
          assert d == out;
          CutAtFirst(out, p);
        } else {
          assert d == DecodeOnto(rest, out + [c]);
          DecodeOntoPushes(rest, out + [c]);
          PushStep(out, c, Pushes(rest), d);
        }
    }
  }

  lemma CutAtFirst(out: String, p: String)
    requires |p| > 0 && Utf8Size(out) + Utf8Len(p[0]) > Capacity
    ensures CappedPrefix(out, p, out)
  {
    assert out + p[..0] == out;
  }

  /** A decoding that went on after pushing `c` is a capped prefix of `[c]` followed by the rest. */
  lemma PushStep(out: String, c: char, q: String, r: String)
    requires CappedPrefix(out + [c], q, r)
    ensures CappedPrefix(out, [c] + q, r)
  {
    var m := |r| - |out| - 1;
    assert ([c] + q)[..m + 1] == [c] + q[..m];
    assert out + [c] + q[..m] == out + ([c] + q[..m]);
  }

  /**
   * The capacity cut-off: the decoded message is the longest prefix of the
   * pushed characters that fits in 32 UTF-8 bytes. The first character left
   * out is the one that would overflow, and when all of them fit all are kept.
   */
  lemma DecodeCutOff(s: String)
    ensures |Decode(s)| <= |Pushes(s)| && Decode(s) == Pushes(s)[..|Decode(s)|]
    ensures Utf8Size(Decode(s)) <= Capacity
    ensures |Decode(s)| < |Pushes(s)| ==> Utf8Size(Decode(s)) + Utf8Len(Pushes(s)[|Decode(s)|]) > Capacity
    ensures Utf8Size(Pushes(s)) <= Capacity ==> Decode(s) == Pushes(s)
  {
    var empty: String := [];
    DecodeOntoPushes(s, empty);
    DecodeOntoFits(s, empty);
    var d, p := Decode(s), Pushes(s);
    assert empty + p[..|d|] == p[..|d|];
    if |d| < |p| {
      PrefixSize(d, p);
    } else {
      assert p[..|d|] == p;
    }
  }

  /** A proper prefix and the character after it take no more bytes than the whole. */
  lemma PrefixSize(d: String, p: String)
    requires |d| < |p| && d == p[..|d|]
    ensures Utf8Size(d) + Utf8Len(p[|d|]) <= Utf8Size(p)
  {
    var next := p[|d|];
    assert p == d + [next] + p[|d| + 1..];
    Utf8SizeAppend(d + [next], p[|d| + 1..]);
    Utf8SizeSnoc(d, next);
  }

  /** Text with neither `%` nor `+` is pushed unchanged. */
  lemma {:induction false} PushesPlain(s: String)
    requires Plain(s)
    ensures Pushes(s) == s
    decreases |s|
  {
    if s != [] {
      assert NextToken(s) == Token(Some(s[0]), 1);
      assert Plain(s[1..]);
      PushesPlain(s[1..]);
      assert [s[0]] + s[1..] == s;
    }
  }

  // The inverse: percent-encoding of text whose characters are all below U+0100.

  function HexDigit(v: nat): (c: char)
    requires v < 16
    ensures HexValue(c) == Some(v)
  {
    if v < 10 then ('0' as int + v) as char else ('A' as int + v - 10) as char
  }

  function LowerHexDigit(v: nat): (c: char)
    requires v < 16
    ensures HexValue(c) == Some(v)
  {
    if v < 10 then ('0' as int + v) as char else ('a' as int + v - 10) as char
  }

  /** `to_digit(16)` accepts exactly `0`-`9`, `a`-`f` and `A`-`F`, giving 0 to 15, either case alike. */
  lemma HexValueIff(c: char, v: nat)
    ensures HexValue(c) == Some(v) <==> v < 16 && (c == HexDigit(v) || c == LowerHexDigit(v))
  {
    if HexValue(c) == Some(v) {
      if '0' <= c <= '9' {
        assert c == HexDigit(v);
      } else if 'a' <= c <= 'f' {
        assert c == LowerHexDigit(v);
      } else {
        assert c == HexDigit(v);
      }
    }
  }

  predicate Unreserved(c: char)
  {
    ('0' <= c <= '9') || ('a' <= c <= 'z') || ('A' <= c <= 'Z') || c == '-' || c == '_' || c == '.' || c == '~'
  }

  /** How a form encodes one character: `+` for a space, itself when unreserved, `%HH` otherwise. */
  function EncodeChar(c: char): String
    requires c as int < 0x100
  {
    if c == ' ' then "+"
    else if Unreserved(c) then [c]
    else ['%', HexDigit(c as int / 16), HexDigit(c as int % 16)]
  }

  predicate Latin1(t: String)
  {
    forall j :: 0 <= j < |t| ==> t[j] as int < 0x100
  }

  function Encode(t: String): String
    requires Latin1(t)
  {
    if t == [] then [] else EncodeChar(t[0]) + Encode(t[1..])
  }

  lemma TokenOfEncoded(c: char, rest: String)
    requires c as int < 0x100
    ensures NextToken(EncodeChar(c) + rest) == Token(Some(c), |EncodeChar(c)|)
  {
    var s := EncodeChar(c) + rest;
    if c != ' ' && !Unreserved(c) {
      assert s[0] == '%' && s[1] == HexDigit(c as int / 16) && s[2] == HexDigit(c as int % 16);
      assert (c as int / 16) * 16 + c as int % 16 == c as int;
    }
  }

  /** Round trip: decoding the encoding of a Latin-1 text that fits gives the text back. */
  lemma {:induction false} DecodeOntoEncode(t: String, out: String)
    requires Latin1(t)
    requires Utf8Size(out + t) <= Capacity
    ensures DecodeOnto(Encode(t), out) == out + t
    decreases |t|
  {
    if t == [] {
      assert out + t == out;
    } else {
      var c := t[0];
      var rest := Encode(t[1..]);
      TokenOfEncoded(c, rest);
      var s := EncodeChar(c) + rest;
      assert s[|EncodeChar(c)|..] == rest;
      assert out + t == (out + [c]) + t[1..];
      Utf8SizeAppend(out + [c], t[1..]);
      Utf8SizeSnoc(out, c);
      assert Latin1(t[1..]);
      DecodeOntoEncode(t[1..], out + [c]);
    }
  }

  lemma DecodeEncode(t: String)
    requires Latin1(t) && Utf8Size(t) <= Capacity
    ensures Decode(Encode(t)) == t
  {
    assert [] + t == t;
    DecodeOntoEncode(t, []);
  }

  /** With no capacity, decoding an encoding gives every character back. */
  lemma {:induction false} PushesEncode(t: String)
    requires Latin1(t)
    ensures Pushes(Encode(t)) == t
    decreases |t|
  {
    if t != [] {
      var c := t[0];
      var rest := Encode(t[1..]);
      TokenOfEncoded(c, rest);
      assert (EncodeChar(c) + rest)[|EncodeChar(c)|..] == rest;
      assert Latin1(t[1..]);
      PushesEncode(t[1..]);
      assert [c] + t[1..] == t;
    }
  }

  /**
   * Round trip for any Latin-1 text: decoding its encoding gives the longest
   * prefix of the text that fits in 32 UTF-8 bytes.
   */
  lemma DecodeEncodePrefix(t: String)
    requires Latin1(t)
    ensures |Decode(Encode(t))| <= |t| && Decode(Encode(t)) == t[..|Decode(Encode(t))|]
    ensures |Decode(Encode(t))| < |t| ==> Utf8Size(Decode(Encode(t))) + Utf8Len(t[|Decode(Encode(t))|]) > Capacity
  {
    PushesEncode(t);
    DecodeCutOff(Encode(t));
  }

  /** A lower-case escape decodes like the upper-case one: `%e9` and `%E9` are both U+00E9. */
  lemma LowerEscapeAlike(v: nat, rest: String, out: String)
    requires v < 0x100
    ensures DecodeOnto(['%', LowerHexDigit(v / 16), LowerHexDigit(v % 16)] + rest, out)
         == DecodeOnto(['%', HexDigit(v / 16), HexDigit(v % 16)] + rest, out)
  {
    var lower := ['%', LowerHexDigit(v / 16), LowerHexDigit(v % 16)] + rest;
    var upper := ['%', HexDigit(v / 16), HexDigit(v % 16)] + rest;
    EscapeCost(LowerHexDigit(v / 16), LowerHexDigit(v % 16), rest);
    EscapeCost(HexDigit(v / 16), HexDigit(v % 16), rest);
    assert lower[3..] == rest == upper[3..];
  }

  // ---------------------------------------------------------------- routes

  /** A request for the root page gets the page and no message, whatever follows. */
  lemma RootFirst(request: String)
    requires StartsWith(request, "GET / ")
    ensures HandleRequest(request) == Response(HtmlPage, None)
  {
  }

  /** The second prefix test adds nothing: every request starting `GET / HTTP` starts `GET / `. */
  lemma RootPrefixes(request: String)
    ensures StartsWith(request, "GET / HTTP") ==> StartsWith(request, "GET / ")
  {
    if StartsWith(request, "GET / HTTP") {
      assert request[..6] == request[..10][..6];
    }
  }

  /** A request naming the text route contains a `msg=`, inside the route itself if not before. */
  lemma TextRouteHasMessage(request: String)
    requires Contains(request, "GET /text?msg=")
    ensures Contains(request, "msg=")
  {
    var i := Find(request, "GET /text?msg=").value;
    assert OccursAt(request, "msg=", i + 10) by {
      assert request[i + 10..i + 14] == request[i..i + 14][10..14];
    }
    FindFirst(request, "msg=");
  }

  /**
   * A request that is not for the root and names the text route gets the
   * page and the decoded message that runs from just after the first `msg=`
   * (at `start`) to the first `' '`, `'\r'` or `'\n'` after it or the end (at `stop`).
   */
  lemma TextRequest(request: String, start: nat, stop: nat)
    requires !StartsWith(request, "GET / ") && Contains(request, "GET /text?msg=")
    requires OccursAt(request, "msg=", start) && forall j :: 0 <= j < start ==> !OccursAt(request, "msg=", j)
    requires start + 4 <= stop <= |request|
    requires forall j :: start + 4 <= j < stop ==> !IsDelimiter(request[j])
    requires stop < |request| ==> IsDelimiter(request[stop])
    ensures HandleRequest(request) == Response(HtmlPage, Some(Decode(request[start + 4..stop])))
  {
    RootPrefixes(request);
    FindFirst(request, "msg=");
    assert Find(request, "msg=") == Some(start);
    var remaining := request[start + 4..];
    var e := MessageEnd(remaining, 0);
    assert e == stop - start - 4;
    assert remaining[..e] == request[start + 4..stop];
  }

  /** Not the root nor the text route, but naming `/clear`: the page and the empty message. */
  lemma ClearRequest(request: String)
    requires !StartsWith(request, "GET / ") && !Contains(request, "GET /text?msg=")
    requires Contains(request, "GET /clear")
    ensures HandleRequest(request) == Response(HtmlPage, Some([]))
  {
    RootPrefixes(request);
  }

  /** Every other request is not found and carries no message. */
  lemma OtherRequest(request: String)
    requires !StartsWith(request, "GET / ") && !Contains(request, "GET /text?msg=")
    requires !Contains(request, "GET /clear")
    ensures HandleRequest(request) == Response(NotFound, None)
  {
    RootPrefixes(request);
  }

  /** Bytes that are not UTF-8 are not found. */
  lemma InvalidUtf8NotFound()
    ensures HandleBytes(None) == Response(NotFound, None)
  {
    assert !Contains([], "GET /text?msg=");
    assert !Contains([], "GET /clear");
  }
}
