/** Result assembly (`parse`): the header fields of the message, its plain-text and
    HTML bodies, and its attachments. Inline attachments that the HTML refers to by a
    `cid:` URL (RFC 2392) are written into it as `data:` URLs (RFC 2397). */
module EmailParser {
  import opened Php
  import opened HeaderLexer
  import opened HeaderLookup
  import Address
  import opened Library
  import opened BodyDecoder
  import opened BodyParts

  /** One attachment, as the parser reports it. */
  datatype Attachment = Attachment(contentType: string, name: string, id: string, base64Content: string)

  /** The result of `parse`. */
  datatype Email = Email(
    deliveryDate: Option<int>,
    date: Option<int>,
    subject: string,
    to: Address.Address,
    from: Address.Address,
    replyTo: Address.Address,
    text: string,
    html: string,
    attachments: seq<Attachment>)

  /** How a leaf is used, by its Content-Type value, compared case-sensitively
      (lines 43-51). */
  datatype Kind = PlainText | Html | Untyped | Attached

  function KindOfType(contentType: string): (k: Kind)
    ensures k == Attached <==> contentType !in {"text/plain", "text/html", ""}
  {
    if contentType == "text/plain" then PlainText
    else if contentType == "text/html" then Html
    else if contentType == "" then Untyped
    else Attached
  }

  function KindOf(leaf: Leaf): Kind
  {
    KindOfType(ContentTypeOf(leaf.headers))
  }

  /** Line 55: the Content-ID with every leading and trailing `<` and `>` removed. */
  function ContentId(headers: seq<Header>): (id: string)
    ensures id == [] || (id[0] !in AngleBrackets && id[|id| - 1] !in AngleBrackets)
  {
    BracketsTrimmed(HeaderValue(headers, "Content-ID"))
  }

  /** `trim($raw, '<>')`. */
  function BracketsTrimmed(raw: string): (id: string)
    ensures id == [] || (id[0] !in AngleBrackets && id[|id| - 1] !in AngleBrackets)
  {
    TrimCharsEnds(raw, AngleBrackets);
    TrimChars(raw, AngleBrackets)
  }

  /** Lines 52-56: the attachment a leaf of another content type becomes. */
  function AttachmentOf(rt: Runtime, leaf: Leaf): Attachment
  {
    var contentTypeData := HeaderValueAndOptions(leaf.headers, "Content-Type");
    Attachment(
      contentTypeData.value,
      if "name" in contentTypeData.options then rt.mimeDecode(contentTypeData.options["name"]) else "",
      ContentId(leaf.headers),
      rt.base64Encode(DecodedBody(rt, leaf.headers, leaf.body)))
  }

  /** Lines 57-58: an attachment is inline when its lower-cased Content-Disposition is
      exactly `inline`. */
  predicate IsInline(leaf: Leaf)
  {
    Lower(HeaderValue(leaf.headers, "Content-Disposition")) == "inline"
  }

  /** What the loop of lines 41-64 holds. */
  datatype Collected = Collected(text: string, html: string, attachments: seq<Attachment>, inline: seq<Attachment>)

  /** What the loop of lines 41-64 reads from one leaf: its kind, its decoded body,
      the attachment it would become and whether that attachment is inline. */
  datatype Info = Info(kind: Kind, decoded: string, attachment: Attachment, inline: bool)

  function InfoOf(rt: Runtime, leaf: Leaf): Info
  {
    Info(KindOf(leaf), DecodedBody(rt, leaf.headers, leaf.body), AttachmentOf(rt, leaf), IsInline(leaf))
  }

  /** What the loop of lines 42-63 does with one leaf. */
  function Classify(acc: Collected, info: Info): Collected
  {
    match info.kind
    case PlainText => acc.(text := info.decoded)
    case Html => acc.(html := info.decoded)
    case Untyped => if |acc.text| == 0 then acc.(text := info.decoded) else acc
    case Attached =>
      if info.inline then acc.(inline := acc.inline + [info.attachment])
      else acc.(attachments := acc.attachments + [info.attachment])
  }

  /** The first `n` leaves classified in order, from empty text and html and no
      attachments. */
  function Collect(infos: seq<Info>, n: nat): Collected
    requires n <= |infos|
  {
    if n == 0 then Collected("", "", [], [])
    else Classify(Collect(infos, n - 1), infos[n - 1])
  }

  /** What is read from each leaf, in order. */
  function Infos(rt: Runtime, leaves: seq<Leaf>): (infos: seq<Info>)
    ensures |infos| == |leaves|
  {
    if leaves == [] then []
    else Infos(rt, leaves[..|leaves| - 1]) + [InfoOf(rt, leaves[|leaves| - 1])]
  }

  /** Entry `i` is what is read from leaf `i`. */
  lemma {:induction false} InfoAt(rt: Runtime, leaves: seq<Leaf>, i: nat)
    requires i < |leaves|
    ensures Infos(rt, leaves)[i] == InfoOf(rt, leaves[i])
    decreases |leaves|
  {
    var init := leaves[..|leaves| - 1];
    var front := Infos(rt, init);
    assert Infos(rt, leaves) == front + [InfoOf(rt, leaves[|leaves| - 1])];
    if i < |leaves| - 1 {
      InfoAt(rt, init, i);
      assert init[i] == leaves[i];
      assert (front + [InfoOf(rt, leaves[|leaves| - 1])])[i] == front[i];
    }
  }

  /** Lines 35-64. */
  function CollectAll(rt: Runtime, leaves: seq<Leaf>): Collected
  {
    Collect(Infos(rt, leaves), |leaves|)
  }

  /** Line 68: the URL an inline attachment is referred to by. */
  function CidUrl(a: Attachment): string
  {
    "cid:" + a.id
  }

  /** Line 69: the URL it is replaced with. */
  function DataUrl(a: Attachment): string
  {
    "data:" + a.contentType + ";base64," + a.base64Content
  }

  /** Lines 67-71: one inline attachment with an id and a content type replaces every
      `cid:` URL of it, provided `strpos` finds the first one; a first occurrence at
      position 0 is read by `if` as false and suppresses the replacement. */
  function RewriteOne(html: string, a: Attachment): string
  {
    if |a.id| > 0 && |a.contentType| > 0 then
      match StrPos(html, CidUrl(a))
      case Some(p) => if p != 0 then ReplaceAll(html, CidUrl(a), DataUrl(a)) else html
      case None => html
    else html
  }

  /** Lines 66-72: the inline attachments applied in order. */
  function RewriteAll(html: string, inline: seq<Attachment>): string
  {
    if inline == [] then html else RewriteOne(RewriteAll(html, inline[..|inline| - 1]), inline[|inline| - 1])
  }

  /** Lines 65-73: rewriting takes place only when there are inline attachments and
      the HTML is not empty. */
  function Rewritten(html: string, inline: seq<Attachment>): string
  {
    if |inline| > 0 && |html| > 0 then RewriteAll(html, inline) else html
  }

  /** Lines 26-27: the header fields of the message, read from the text before its first
      blank line. */
  function MessageHeaders(email: string): seq<Header>
  {
    HeaderFields(Explode2(BlankLine, email)[0])
  }

  /** `parse($email)` as a value (lines 23-76). */
  function Parsed(rt: Runtime, email: string): Email
  {
    var headers := MessageHeaders(email);
    var collected := CollectAll(rt, BodyParts.BodyParts(email, None));
    Email(
      rt.parseDate(HeaderValue(headers, "Delivery-date")),
      rt.parseDate(HeaderValue(headers, "Date")),
      rt.mimeDecode(HeaderValue(headers, "Subject")),
      Address.ParseEmailAddress(rt.mimeDecode, HeaderValue(headers, "To")),
      Address.ParseEmailAddress(rt.mimeDecode, HeaderValue(headers, "From")),
      Address.ParseEmailAddress(rt.mimeDecode, HeaderValue(headers, "Reply-To")),
      collected.text,
      Rewritten(collected.html, collected.inline),
      collected.attachments)
  }

  /** Lines 23-76. */
  method Parse(rt: Runtime, email: string) returns (result: Email)
    ensures result == Parsed(rt, email)
  {
    var parts := Explode2(BlankLine, email);
    var headers := ParseHeaders(parts[0]);
    var deliveryDate := rt.parseDate(HeaderValue(headers, "Delivery-date"));
    var date := rt.parseDate(HeaderValue(headers, "Date"));
    var subject := rt.mimeDecode(HeaderValue(headers, "Subject"));
    var to := Address.ParseEmailAddress(rt.mimeDecode, HeaderValue(headers, "To"));
    var from := Address.ParseEmailAddress(rt.mimeDecode, HeaderValue(headers, "From"));
    var replyTo := Address.ParseEmailAddress(rt.mimeDecode, HeaderValue(headers, "Reply-To"));
    var bodyParts := GetBodyParts(email, None);
    var collected := CollectLeaves(rt, bodyParts);
    var html := collected.html;
    if |collected.inline| > 0 && |html| > 0 {
      html := RewriteInline(html, collected.inline);
    }
    result := Email(deliveryDate, date, subject, to, from, replyTo, collected.text, html, collected.attachments);
  }

  /** Lines 35-64: the loop over the leaves. */
  method CollectLeaves(rt: Runtime, leaves: seq<Leaf>) returns (r: Collected)
    ensures r == CollectAll(rt, leaves)
  {
    ghost var infos := Infos(rt, leaves);
    assert |infos| == |leaves|;
    r := Collected("", "", [], []);
    var i := 0;
    while i < |leaves|
      invariant 0 <= i <= |leaves|
      invariant r == Collect(infos, i)
    {
      InfoAt(rt, leaves, i);
      r := ClassifyLeaf(rt, r, leaves[i]);
      i := i + 1;
    }
  }

  /** Lines 42-63: the body of that loop, for one leaf. */
  method ClassifyLeaf(rt: Runtime, acc: Collected, leaf: Leaf) returns (r: Collected)
    ensures r == Classify(acc, InfoOf(rt, leaf))
  {
    var contentTypeData := GetHeaderValueAndOptions(leaf.headers, "Content-Type");
    var kind := KindOfType(contentTypeData.value);
    if kind == Attached {
      r := ClassifyAttachment(rt, acc, leaf, contentTypeData);
    } else {
      r := ClassifyText(rt, acc, leaf, kind);
    }
  }

  /** Lines 43-50: a text leaf. */
  method ClassifyText(rt: Runtime, acc: Collected, leaf: Leaf, kind: Kind) returns (r: Collected)
    requires kind == KindOf(leaf) != Attached
    ensures r == Classify(acc, InfoOf(rt, leaf))
  {
    r := acc;
    if kind == PlainText {
      var text := DecodeBodyPart(rt, leaf.headers, leaf.body);
      r := r.(text := text);
    } else if kind == Html {
      var html := DecodeBodyPart(rt, leaf.headers, leaf.body);
      r := r.(html := html);
    } else if |r.text| == 0 {
      var text := DecodeBodyPart(rt, leaf.headers, leaf.body);
      r := r.(text := text);
    }
  }

  /** Lines 51-62: a leaf of any other content type becomes an attachment, kept with the
      inline ones or with the others. */
  method ClassifyAttachment(rt: Runtime, acc: Collected, leaf: Leaf, contentTypeData: ValueAndOptions)
    returns (r: Collected)
    requires contentTypeData == HeaderValueAndOptions(leaf.headers, "Content-Type")
    requires KindOf(leaf) == Attached
    ensures r == Classify(acc, InfoOf(rt, leaf))
  {
    var attachmentData, inline := ReadAttachment(rt, leaf, contentTypeData);
    ghost var info := InfoOf(rt, leaf);
    assert info.kind == Attached && info.attachment == attachmentData && info.inline == inline;
    if inline {
      r := acc.(inline := acc.inline + [attachmentData]);
    } else {
      r := acc.(attachments := acc.attachments + [attachmentData]);
    }
  }

  /** Lines 52-58: the attachment a leaf becomes, and whether it is inline. */
  method ReadAttachment(rt: Runtime, leaf: Leaf, contentTypeData: ValueAndOptions)
    returns (attachmentData: Attachment, inline: bool)
    requires contentTypeData == HeaderValueAndOptions(leaf.headers, "Content-Type")
    ensures attachmentData == AttachmentOf(rt, leaf)
    ensures inline == IsInline(leaf)
  {
    var name := if "name" in contentTypeData.options then rt.mimeDecode(contentTypeData.options["name"]) else "";
    var id := TrimChars(HeaderValue(leaf.headers, "Content-ID"), AngleBrackets);
    var decoded := DecodeBodyPart(rt, leaf.headers, leaf.body);
    attachmentData := Attachment(contentTypeData.value, name, id, rt.base64Encode(decoded));
    var contentDisposition := Lower(HeaderValue(leaf.headers, "Content-Disposition"));
    inline := contentDisposition == "inline";
  }

  /** Lines 66-72: the loop over the inline attachments. */
  method RewriteInline(html0: string, inline: seq<Attachment>) returns (html: string)
    ensures html == RewriteAll(html0, inline)
  {
    html := html0;
    var j := 0;
    while j < |inline|
      invariant 0 <= j <= |inline|
      invariant html == RewriteAll(html0, inline[..j])
    {
      assert inline[..j + 1][..j] == inline[..j];
      var inlineAttachment := inline[j];
      if |inlineAttachment.id| > 0 && |inlineAttachment.contentType| > 0 {
        var p := StrPos(html, "cid:" + inlineAttachment.id);
        if p.Some? && p.value != 0 {
          html := ReplaceAll(html, "cid:" + inlineAttachment.id,
            "data:" + inlineAttachment.contentType + ";base64," + inlineAttachment.base64Content);
        }
      }
      j := j + 1;
    }
    assert inline[..j] == inline;
  }

  /** Leaves that are neither plain text nor untyped leave the text alone. */
  lemma {:induction false} TextKept(infos: seq<Info>, m: nat, n: nat)
    requires m <= n <= |infos|
    requires forall k :: m <= k < n ==> infos[k].kind in {Html, Attached}
    ensures Collect(infos, n).text == Collect(infos, m).text
    decreases n
  {
    if n > m {
      TextKept(infos, m, n - 1);
    }
  }

  /** Once the text is not empty, only a plain-text leaf changes it. */
  lemma {:induction false} TextSettled(infos: seq<Info>, m: nat, n: nat)
    requires m <= n <= |infos|
    requires |Collect(infos, m).text| > 0
    requires forall k :: m <= k < n ==> infos[k].kind != PlainText
    ensures Collect(infos, n).text == Collect(infos, m).text
    decreases n
  {
    if n > m {
      TextSettled(infos, m, n - 1);
    }
  }

  /** Lines 43-44 and 47-50: the text is the decoded body of the last plain-text leaf,
      provided no untyped leaf after it finds the text empty. */
  lemma LastPlainTextWins(infos: seq<Info>, k: nat)
    requires k < |infos| && infos[k].kind == PlainText
    requires forall j :: k < j < |infos| ==> infos[j].kind != PlainText
    requires |infos[k].decoded| > 0 || forall j :: k < j < |infos| ==> infos[j].kind != Untyped
    ensures Collect(infos, |infos|).text == infos[k].decoded
  {
    if |infos[k].decoded| > 0 {
      TextSettled(infos, k + 1, |infos|);
    } else {
      TextKept(infos, k + 1, |infos|);
    }
  }

  /** Leaves that are not HTML leave the HTML alone. */
  lemma {:induction false} HtmlKept(infos: seq<Info>, m: nat, n: nat)
    requires m <= n <= |infos|
    requires forall k :: m <= k < n ==> infos[k].kind != Html
    ensures Collect(infos, n).html == Collect(infos, m).html
    decreases n
  {
    if n > m {
      HtmlKept(infos, m, n - 1);
    }
  }

  /** Lines 45-46: the HTML is the decoded body of the last HTML leaf, and is empty
      without one. */
  lemma LastHtmlWins(infos: seq<Info>, k: nat)
    requires k < |infos| && infos[k].kind == Html
    requires forall j :: k < j < |infos| ==> infos[j].kind != Html
    ensures Collect(infos, |infos|).html == infos[k].decoded
  {
    HtmlKept(infos, k + 1, |infos|);
  }

  lemma NoHtmlLeaf(infos: seq<Info>)
    requires forall j :: 0 <= j < |infos| ==> infos[j].kind != Html
    ensures Collect(infos, |infos|).html == ""
  {
    HtmlKept(infos, 0, |infos|);
  }

  /** Before any plain-text leaf, and while every untyped leaf decodes to nothing, the
      text stays empty. */
  lemma {:induction false} TextStaysEmpty(infos: seq<Info>, n: nat)
    requires n <= |infos|
    requires forall j :: 0 <= j < n ==> infos[j].kind != PlainText
    requires forall j :: 0 <= j < n && infos[j].kind == Untyped ==> infos[j].decoded == ""
    ensures Collect(infos, n).text == ""
    decreases n
  {
    if n > 0 {
      TextStaysEmpty(infos, n - 1);
    }
  }

  /** Lines 47-50: without a plain-text leaf, the text is the first untyped body that
      decodes to something; later untyped leaves find the text set and are ignored. */
  lemma FirstUntypedWins(infos: seq<Info>, k: nat)
    requires forall j :: 0 <= j < |infos| ==> infos[j].kind != PlainText
    requires k < |infos| && infos[k].kind == Untyped && |infos[k].decoded| > 0
    requires forall j :: 0 <= j < k && infos[j].kind == Untyped ==> infos[j].decoded == ""
    ensures Collect(infos, |infos|).text == infos[k].decoded
  {
    TextStaysEmpty(infos, k);
    TextSettled(infos, k + 1, |infos|);
  }

  /** Without a plain-text or untyped leaf the text is empty. */
  lemma NoTextLeaf(infos: seq<Info>)
    requires forall j :: 0 <= j < |infos| ==> infos[j].kind in {Html, Attached}
    ensures Collect(infos, |infos|).text == ""
  {
    TextKept(infos, 0, |infos|);
  }

  /** The attachments of the leaves that are attachments and are (or are not) inline,
      in leaf order. */
  function AttachmentsWhere(infos: seq<Info>, inline: bool): seq<Attachment>
  {
    if infos == [] then []
    else
      (if infos[0].kind == Attached && infos[0].inline == inline then [infos[0].attachment] else [])
      + AttachmentsWhere(infos[1..], inline)
  }

  lemma {:induction false} AttachmentsWhereSnoc(infos: seq<Info>, x: Info, inline: bool)
    ensures AttachmentsWhere(infos + [x], inline) == AttachmentsWhere(infos, inline)
      + if x.kind == Attached && x.inline == inline then [x.attachment] else []
    decreases |infos|
  {
    if infos == [] {
      assert [x][1..] == [];
    } else {
      var h := if infos[0].kind == Attached && infos[0].inline == inline then [infos[0].attachment] else [];
      var t := if x.kind == Attached && x.inline == inline then [x.attachment] else [];
      assert (infos + [x])[0] == infos[0];
      assert (infos + [x])[1..] == infos[1..] + [x];
      assert AttachmentsWhere(infos + [x], inline) == h + AttachmentsWhere(infos[1..] + [x], inline);
      AttachmentsWhereSnoc(infos[1..], x, inline);
      assert h + (AttachmentsWhere(infos[1..], inline) + t) == (h + AttachmentsWhere(infos[1..], inline)) + t;
    }
  }

  /** Lines 51-62: every leaf that is not text becomes exactly one attachment; the
      inline ones and the others are each kept in leaf order. */
  lemma {:induction false} CollectedAttachments(infos: seq<Info>, n: nat)
    requires n <= |infos|
    ensures Collect(infos, n).attachments == AttachmentsWhere(infos[..n], false)
    ensures Collect(infos, n).inline == AttachmentsWhere(infos[..n], true)
    decreases n
  {
    if n > 0 {
      CollectedAttachments(infos, n - 1);
      assert infos[..n] == infos[..n - 1] + [infos[n - 1]];
      AttachmentsWhereSnoc(infos[..n - 1], infos[n - 1], false);
      AttachmentsWhereSnoc(infos[..n - 1], infos[n - 1], true);
    }
  }

  /** Lines 53-55: an attachment has the leaf's Content-Type value, which is never
      empty, the decoded `name` parameter or "", and the Content-ID without its angle
      brackets. */
  lemma AttachmentShape(rt: Runtime, leaf: Leaf)
    requires KindOf(leaf) == Attached
    ensures |AttachmentOf(rt, leaf).contentType| > 0
    ensures AttachmentOf(rt, leaf).contentType == ContentTypeOf(leaf.headers)
    ensures "name" !in HeaderValueAndOptions(leaf.headers, "Content-Type").options ==> AttachmentOf(rt, leaf).name == ""
    ensures AttachmentOf(rt, leaf).id == TrimChars(HeaderValue(leaf.headers, "Content-ID"), AngleBrackets)
  {
    assert ContentTypeOf(leaf.headers) != "";
  }

  /** Line 68: a reference at the very start of the HTML is found at position 0, which
      `if` reads as false, so that attachment rewrites nothing, later references
      included. */
  lemma RewriteOneAtStart(html: string, a: Attachment)
    requires |CidUrl(a)| <= |html| && html[..|CidUrl(a)|] == CidUrl(a)
    ensures RewriteOne(html, a) == html
  {
    StrPosAtStart(html, CidUrl(a));
  }

  /** HTML that does not refer to the attachment is left alone. */
  lemma RewriteOneAbsent(html: string, a: Attachment)
    requires forall q :: !OccursAt(html, CidUrl(a), q)
    ensures RewriteOne(html, a) == html
  {
  }

  /** Line 69: otherwise the HTML, cut left to right at every reference to the
      attachment, is joined again with its `data:` URL in their place. The cut exists,
      and any cut that rejoins to the HTML, holds no reference inside a piece and is
      leftmost gives that result. */
  lemma RewriteOneReplaces(html: string, a: Attachment)
    requires |a.id| > 0 && |a.contentType| > 0
    requires StrPos(html, CidUrl(a)).Some? && StrPos(html, CidUrl(a)).value > 0
    ensures exists pieces: seq<string> ::
      && Join(CidUrl(a), pieces) == html
      && (forall i :: 0 <= i < |pieces| ==> Free(pieces[i], CidUrl(a)))
      && Leftmost(pieces, CidUrl(a))
      && RewriteOne(html, a) == Join(DataUrl(a), pieces)
    ensures forall pieces: seq<string> ::
      |pieces| > 0 && Join(CidUrl(a), pieces) == html
      && (forall i :: 0 <= i < |pieces| ==> Free(pieces[i], CidUrl(a)))
      && Leftmost(pieces, CidUrl(a))
      ==> RewriteOne(html, a) == Join(DataUrl(a), pieces)
  {
    var url := CidUrl(a);
    ExplodeJoin(url, html);
    ExplodeLeftmost(url, html);
    var cut := Explode(url, html);
    assert RewriteOne(html, a) == Join(DataUrl(a), cut);
    forall pieces: seq<string> |
      |pieces| > 0 && Join(url, pieces) == html
      && (forall i :: 0 <= i < |pieces| ==> Free(pieces[i], url))
      && Leftmost(pieces, url)
      ensures RewriteOne(html, a) == Join(DataUrl(a), pieces)
    {
      ExplodeUnique(url, html, pieces);
    }
  }

  /** The inline attachments are applied one after another. */
  lemma {:induction false} RewriteAllAppend(html: string, xs: seq<Attachment>, ys: seq<Attachment>)
    ensures RewriteAll(html, xs + ys) == RewriteAll(RewriteAll(html, xs), ys)
    decreases |ys|
  {
    if ys == [] {
      assert xs + ys == xs;
    } else {
      var init := ys[..|ys| - 1];
      assert (xs + ys)[..|xs + ys| - 1] == xs + init;
      assert (xs + ys)[|xs + ys| - 1] == ys[|ys| - 1];
      RewriteAllAppend(html, xs, init);
    }
  }

  /** Inline attachments without an id rewrite nothing. */
  lemma {:induction false} RewriteAllAnonymous(html: string, inline: seq<Attachment>)
    requires forall i :: 0 <= i < |inline| ==> inline[i].id == ""
    ensures RewriteAll(html, inline) == html
    decreases |inline|
  {
    if inline != [] {
      RewriteAllAnonymous(html, inline[..|inline| - 1]);
    }
  }

  /** Line 27 reads the same header fields as the first reading of the message by
      `getBodyParts` (line 196): `parseHeaders` trims its input itself. */
  lemma MessageHeadersAreEnvelopeHeaders(email: string)
    ensures MessageHeaders(email) == HeaderFields(HeaderBlock(email))
    ensures |BoundaryOf(MessageHeaders(email))| == 0 ==> EnvelopeOf(email, None).headers == MessageHeaders(email)
  {
    TrimIdempotent(Explode2(BlankLine, email)[0]);
  }

  /** The attachments collected from the leaves are the non-inline attachment leaves,
      in order; the inline ones are kept apart for the HTML. */
  lemma CollectAllAttachments(rt: Runtime, leaves: seq<Leaf>)
    ensures CollectAll(rt, leaves).attachments == AttachmentsWhere(Infos(rt, leaves), false)
    ensures CollectAll(rt, leaves).inline == AttachmentsWhere(Infos(rt, leaves), true)
  {
    var infos := Infos(rt, leaves);
    CollectedAttachments(infos, |infos|);
    assert infos[..|infos|] == infos;
  }

  /** So the attachments `parse` returns are the non-inline attachment leaves of the
      message, in order. */
  lemma ParsedAttachments(rt: Runtime, email: string)
    ensures Parsed(rt, email).attachments == AttachmentsWhere(Infos(rt, BodyParts.BodyParts(email, None)), false)
  {
    CollectAllAttachments(rt, BodyParts.BodyParts(email, None));
  }
}
