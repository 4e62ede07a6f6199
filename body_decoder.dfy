/** Body decoding (`decodeBodyPart`): the content transfer encoding is undone
    (section 6 of RFC 2045), then the text is converted to UTF-8 when its `charset`
    parameter names another encoding the runtime knows. */
module BodyDecoder {
  import opened Php
  import opened HeaderLexer
  import opened HeaderLookup
  import opened Library

  /** `preg_replace('/((\r?\n)*)/', '', $s)`: every CRLF and every lone LF is removed;
      a CR that is not followed by LF stays. */
  function LineBreaksRemoved(s: string): (r: string)
    ensures |r| <= |s|
    ensures '\n' !in r
  {
    if |s| == 0 then ""
    else if s[0] == '\n' then LineBreaksRemoved(s[1..])
    else if |s| >= 2 && s[0] == '\r' && s[1] == '\n' then LineBreaksRemoved(s[2..])
    else [s[0]] + LineBreaksRemoved(s[1..])
  }

  /** Text without a line feed is left alone. */
  lemma {:induction false} LineBreaksRemovedKeeps(s: string)
    requires '\n' !in s
    ensures LineBreaksRemoved(s) == s
  {
    if |s| > 0 {
      assert s == [s[0]] + s[1..];
      LineBreaksRemovedKeeps(s[1..]);
    }
  }

  /** Removing line breaks a second time changes nothing. */
  lemma LineBreaksRemovedIdempotent(s: string)
    ensures LineBreaksRemoved(LineBreaksRemoved(s)) == LineBreaksRemoved(s)
  {
    LineBreaksRemovedKeeps(LineBreaksRemoved(s));
  }

  /** The removal works piece by piece, unless a CR at the end of the first piece and a
      LF at the start of the second form one CRLF. */
  lemma {:induction false} LineBreaksRemovedAppend(x: string, y: string)
    requires |x| == 0 || |y| == 0 || x[|x| - 1] != '\r' || y[0] != '\n'
    ensures LineBreaksRemoved(x + y) == LineBreaksRemoved(x) + LineBreaksRemoved(y)
  {
    if |x| > 0 {
      var s := x + y;
      assert s[0] == x[0];
      if x[0] == '\n' {
        assert s[1..] == x[1..] + y;
        LineBreaksRemovedAppend(x[1..], y);
      } else if |x| >= 2 && x[0] == '\r' && x[1] == '\n' {
        assert s[2..] == x[2..] + y;
        LineBreaksRemovedAppend(x[2..], y);
      } else {
        assert s[1..] == x[1..] + y;
        LineBreaksRemovedAppend(x[1..], y);
      }
    } else {
      assert x + y == y;
    }
  }

  /** The lines of a CRLF-broken text, once the breaks are removed, run together. */
  lemma LineBreaksRemovedCrlf(x: string, y: string)
    ensures LineBreaksRemoved(x + "\r\n" + y) == LineBreaksRemoved(x) + LineBreaksRemoved(y)
  {
    var z := "\r\n" + y;
    assert x + "\r\n" + y == x + z;
    assert z[2..] == y;
    LineBreaksRemovedAppend(x, z);
  }

  /** Lines 248-255: only the exact, lower-case names `base64` and `quoted-printable`
      select a decoder; any other value, `7bit` included, leaves the body as it is. */
  function TransferDecoded(rt: Runtime, encoding: string, body: string): string
  {
    if encoding == "base64" then rt.base64Decode(LineBreaksRemoved(body))
    else if encoding == "quoted-printable" then rt.quotedPrintableDecode(body)
    else body
  }

  /** Lines 261-266: some entry of the encoding list has `charset` as its lower-case form. */
  function ListsCharset(encodings: seq<string>, charset: string): (r: bool)
    ensures r <==> exists i :: 0 <= i < |encodings| && Lower(encodings[i]) == charset
  {
    if encodings == [] then false
    else if Lower(encodings[0]) == charset then true
    else
      var r := ListsCharset(encodings[1..], charset);
      assert forall i :: 1 <= i < |encodings| ==> encodings[1..][i - 1] == encodings[i];
      r
  }

  /** The parameters of a part's Content-Type. */
  function ContentTypeOptions(headers: seq<Header>): map<string, string>
  {
    HeaderValueAndOptions(headers, "Content-Type").options
  }

  /** The `charset` parameter, lower-cased (line 258). */
  function Charset(options: map<string, string>): Option<string>
  {
    if "charset" in options then Some(Lower(options["charset"])) else None
  }

  /** Lines 257 and 267: the body is converted exactly when a charset is given, is not
      `utf-8` in any case, and is known to the runtime. */
  predicate Converts(rt: Runtime, options: map<string, string>)
  {
    Charset(options).Some? && Charset(options).value != "utf-8"
    && ListsCharset(rt.encodings, Charset(options).value)
  }

  /** Lines 248-272: the body decoded under a transfer encoding and Content-Type
      parameters. */
  function Decoded(rt: Runtime, encoding: string, options: map<string, string>, body: string): string
  {
    var decoded := TransferDecoded(rt, encoding, body);
    if Converts(rt, options) then rt.convertToUtf8(decoded, Charset(options).value) else decoded
  }

  /** `decodeBodyPart($headers, $body)` as a value. */
  function DecodedBody(rt: Runtime, headers: seq<Header>, body: string): string
  {
    Decoded(rt, HeaderValue(headers, "Content-Transfer-Encoding"), ContentTypeOptions(headers), body)
  }

  /** Lines 243-273: the two header lookups, then the decoding. */
  method DecodeBodyPart(rt: Runtime, headers: seq<Header>, body: string) returns (r: string)
    ensures r == DecodedBody(rt, headers, body)
  {
    var contentTypeData := GetHeaderValueAndOptions(headers, "Content-Type");
    var contentTransferEncoding := HeaderValue(headers, "Content-Transfer-Encoding");
    r := Decode(rt, contentTransferEncoding, contentTypeData.options, body);
  }

  /** Lines 248-272. */
  method Decode(rt: Runtime, encoding: string, options: map<string, string>, body: string) returns (r: string)
    ensures r == Decoded(rt, encoding, options, body)
  {
    r := body;
    if encoding == "base64" {
      r := rt.base64Decode(LineBreaksRemoved(r));
    } else if encoding == "quoted-printable" {
      r := rt.quotedPrintableDecode(r);
    }
    if "charset" in options && Lower(options["charset"]) != "utf-8" {
      var charset := Lower(options["charset"]);
      var found := FindEncoding(rt.encodings, charset);
      if found {
        r := rt.convertToUtf8(r, charset);
      }
    }
  }

  /** Lines 259-266: the search of the encoding list, stopping at the first match. */
  method FindEncoding(encodings: seq<string>, charset: string) returns (found: bool)
    ensures found == ListsCharset(encodings, charset)
  {
    found := false;
    var i := 0;
    while i < |encodings|
      invariant 0 <= i <= |encodings|
      invariant !found
      invariant forall k :: 0 <= k < i ==> Lower(encodings[k]) != charset
    {
      if Lower(encodings[i]) == charset {
        found := true;
        break;
      }
      i := i + 1;
    }
  }

  /** Without a conversion the result is the transfer-decoded body. */
  lemma DecodedBodyWithoutConversion(rt: Runtime, headers: seq<Header>, body: string)
    requires !Converts(rt, ContentTypeOptions(headers))
    ensures DecodedBody(rt, headers, body)
      == TransferDecoded(rt, HeaderValue(headers, "Content-Transfer-Encoding"), body)
  {
  }

  /** A body with neither a known transfer encoding nor a conversion is returned as it is. */
  lemma DecodedBodyUnchanged(rt: Runtime, headers: seq<Header>, body: string)
    requires HeaderValue(headers, "Content-Transfer-Encoding") !in {"base64", "quoted-printable"}
    requires !Converts(rt, ContentTypeOptions(headers))
    ensures DecodedBody(rt, headers, body) == body
  {
  }

  /** The transfer encoding name is compared case-sensitively: any name other than the
      exact `base64` and `quoted-printable`, `BASE64` and `7bit` among them, leaves the
      body as it is. */
  lemma TransferEncodingIsCaseSensitive(rt: Runtime, encoding: string, body: string)
    requires encoding != "base64" && encoding != "quoted-printable"
    ensures TransferDecoded(rt, encoding, body) == body
  {
  }

  /** The charset is compared case-insensitively: `utf-8` in any letter case never
      converts. */
  lemma Utf8NeverConverts(rt: Runtime, options: map<string, string>)
    requires "charset" in options
    requires |options["charset"]| == 5
    requires forall i :: 0 <= i < 5 ==> LowerChar(options["charset"][i]) == "utf-8"[i]
    ensures !Converts(rt, options)
  {
    var c := options["charset"];
    LowerAt(c);
    assert Lower(c) == "utf-8";
  }
}
