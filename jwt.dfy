/**
 * `decodeJwt`: read a JWS Compact Serialization (section 7.1 of RFC 7515; a
 * JWT per section 3 of RFC 7519) as header.payload.signature. The first two
 * segments are base64url (section 5 of RFC 4648), rewritten to the standard
 * alphabet (section 4 of RFC 4648), passed through `atob` and `JSON.parse`;
 * the signature is passed through verbatim and never checked.
 *
 * `atob` and `JSON.parse` are parameters: each either returns a value or
 * throws, which is None here. The type of parsed JSON values is the type
 * parameter J.
 */
module Jwt {
  import opened Wrappers

  const Dot: char := '.'

  /** Number of occurrences of c in s. */
  function Count(s: string, c: char): nat
  {
    if s == [] then 0 else (if s[0] == c then 1 else 0) + Count(s[1..], c)
  }

  /** parts[0] + sep + parts[1] + sep + ... : what split undoes. */
  function Join(parts: seq<string>, sep: char): string
    requires |parts| > 0
  {
    if |parts| == 1 then parts[0] else parts[0] + [sep] + Join(parts[1..], sep)
  }

  /**
   * `s.split(sep)` for a one-character separator: the maximal pieces between
   * separators, empty ones included, so there is one piece more than there are
   * separators.
   */
  function Split(s: string, sep: char): (parts: seq<string>)
    ensures |parts| == Count(s, sep) + 1
    ensures forall k :: 0 <= k < |parts| ==> sep !in parts[k]
    decreases |s|
  {
    if s == [] then [[]]
    else
      var rest := Split(s[1..], sep);
      if s[0] == sep then [[]] + rest
      else [[s[0]] + rest[0]] + rest[1..]
  }

  /** Joining the pieces of a split restores the string. */
  lemma {:induction false} SplitThenJoin(s: string, sep: char)
    ensures Join(Split(s, sep), sep) == s
    decreases |s|
  {
    if s != [] {
      var rest := Split(s[1..], sep);
      SplitThenJoin(s[1..], sep);
      if s[0] == sep {
        assert ([[]] + rest)[1..] == rest;
        assert [] + [sep] + Join(rest, sep) == s;
      } else {
        var parts := [[s[0]] + rest[0]] + rest[1..];
        assert parts[0] == [s[0]] + rest[0];
        if |rest| == 1 {
          assert [s[0]] + rest[0] == s;
        } else {
          assert parts[1..] == rest[1..];
          assert Join(rest, sep) == rest[0] + [sep] + Join(rest[1..], sep);
          assert [s[0]] + rest[0] + [sep] + Join(rest[1..], sep) == s;
        }
      }
    }
  }

  lemma JoinThree(parts: seq<string>, sep: char)
    requires |parts| == 3
    ensures Join(parts, sep) == parts[0] + [sep] + (parts[1] + [sep] + parts[2])
  {
    assert parts[1..][1..] == [parts[2]];
    assert Join(parts[1..], sep) == parts[1] + [sep] + parts[2];
  }

  /** Splitting a join of separator-free pieces gives the pieces back. */
  lemma {:induction false} SplitJoin(parts: seq<string>, sep: char)
    requires |parts| > 0
    requires forall k :: 0 <= k < |parts| ==> sep !in parts[k]
    ensures Split(Join(parts, sep), sep) == parts
    decreases |parts|
  {
    if |parts| == 1 {
      SplitPiece(parts[0], [], sep);
      assert parts[0] + [] == parts[0];
    } else {
      var tail := Join(parts[1..], sep);
      SplitJoin(parts[1..], sep);
      assert Split([sep] + tail, sep) == [[]] + parts[1..] by {
        assert ([sep] + tail)[1..] == tail;
      }
      SplitPiece(parts[0], [sep] + tail, sep);
      assert parts[0] + [sep] + tail == parts[0] + ([sep] + tail);
      assert parts[0] + [] == parts[0];
      assert ([[]] + parts[1..])[1..] == parts[1..];
      assert [parts[0]] + parts[1..] == parts;
    }
  }

  /** A separator-free prefix x joins the first piece of what follows it. */
  lemma {:induction false} SplitPiece(x: string, rest: string, sep: char)
    requires sep !in x
    ensures Split(x + rest, sep) == [x + Split(rest, sep)[0]] + Split(rest, sep)[1..]
    decreases |x|
  {
    var tail := Split(rest, sep);
    if x != [] {
      SplitPiece(x[1..], rest, sep);
      assert (x + rest)[1..] == x[1..] + rest;
      assert x[0] == (x + rest)[0] && x[0] in x;
      assert ([x[1..] + tail[0]] + tail[1..])[1..] == tail[1..];
      assert [x[0]] + (x[1..] + tail[0]) == x + tail[0];
    } else {
      assert x + rest == rest;
      assert x + tail[0] == tail[0];
      assert [tail[0]] + tail[1..] == tail;
    }
  }

  /** `str.replace(/from/g, to)` for single characters. */
  function ReplaceAll(s: string, from: char, to: char): (r: string)
    ensures |r| == |s|
    ensures forall k :: 0 <= k < |s| ==> r[k] == if s[k] == from then to else s[k]
    decreases |s|
  {
    if s == [] then []
    else [if s[0] == from then to else s[0]] + ReplaceAll(s[1..], from, to)
  }

  /** The base64url alphabet rewritten to the standard one: `-` to `+`, `_` to `/`. */
  function ToStandardAlphabet(s: string): (r: string)
    ensures |r| == |s|
    ensures forall k :: 0 <= k < |s| ==>
      r[k] == (if s[k] == '-' then '+' else if s[k] == '_' then '/' else s[k])
    ensures '-' !in r && '_' !in r
  {
    ReplaceAll(ReplaceAll(s, '-', '+'), '_', '/')
  }

  /** The encoder's direction: the standard alphabet rewritten to base64url. */
  function ToUrlAlphabet(s: string): string
  {
    ReplaceAll(ReplaceAll(s, '+', '-'), '/', '_')
  }

  /** Text in the standard alphabet survives a trip through base64url and back. */
  lemma AlphabetRoundTrip(s: string)
    requires '-' !in s && '_' !in s
    ensures ToStandardAlphabet(ToUrlAlphabet(s)) == s
  {
    var r := ToStandardAlphabet(ToUrlAlphabet(s));
    assert forall k :: 0 <= k < |s| ==> r[k] == s[k] by {
      forall k | 0 <= k < |s| ensures r[k] == s[k] {
        assert s[k] in s;
      }
    }
  }

  datatype Token<J> = Token(header: J, payload: J, signature: string)

  /** null for the wrong segment count, an exception from atob or JSON.parse, or the record. */
  datatype JwtResult<J> =
    | NotThreeParts               // decodeJwt returns null
    | Malformed(segment: nat)     // decoding segment 0 or 1 threw
    | Decoded(token: Token<J>)

  /** JSON.parse(atob(seg with the base64url alphabet rewritten)). */
  function DecodeSegment<J>(seg: string, atob: string -> Option<string>, parse: string -> Option<J>): (r: Option<J>)
    ensures r.Some? <==> atob(ToStandardAlphabet(seg)).Some? && parse(atob(ToStandardAlphabet(seg)).value).Some?
  {
    match atob(ToStandardAlphabet(seg))
    case None => None
    case Some(text) => parse(text)
  }

  /** decodeJwt: the header is decoded before the payload, so its failure is the one reported. */
  function DecodeJwt<J>(jwt: string, atob: string -> Option<string>, parse: string -> Option<J>): (r: JwtResult<J>)
    ensures r == NotThreeParts <==> Count(jwt, Dot) != 2
    ensures r.Decoded? ==> Dot !in r.token.signature && exists prefix :: jwt == prefix + [Dot] + r.token.signature
  {
    var parts := Split(jwt, Dot);
    if |parts| != 3 then NotThreeParts
    else
      SplitThenJoin(jwt, Dot);
      JoinThree(parts, Dot);
      assert jwt == (parts[0] + [Dot] + parts[1]) + [Dot] + parts[2];
      match DecodeSegment(parts[0], atob, parse)
      case None => Malformed(0)
      case Some(header) =>
        match DecodeSegment(parts[1], atob, parse)
        case None => Malformed(1)
        case Some(payload) => Decoded(Token(header, payload, parts[2]))
  }

  /**
   * On header + "." + payload + "." + signature with dot-free segments, decodeJwt
   * decodes the first two and returns the third verbatim; a segment that fails
   * to decode is reported, never a partly filled record.
   */
  lemma DecodeJwtSegments<J>(h: string, p: string, sig: string,
                             atob: string -> Option<string>, parse: string -> Option<J>)
    requires Dot !in h && Dot !in p && Dot !in sig
    ensures DecodeJwt(h + [Dot] + p + [Dot] + sig, atob, parse) ==
      match DecodeSegment(h, atob, parse)
      case None => Malformed(0)
      case Some(header) =>
        match DecodeSegment(p, atob, parse)
        case None => Malformed(1)
        case Some(payload) => Decoded(Token(header, payload, sig))
  {
    var parts := [h, p, sig];
    JoinThree(parts, Dot);
    assert h + [Dot] + p + [Dot] + sig == h + [Dot] + (p + [Dot] + sig);
    SplitJoin(parts, Dot);
  }
}
