/** Multipart partitioning (`getBodyParts`): a message is split into its leaf parts,
    each a list of headers and a body, by cutting its body at the boundary markers of
    its Content-Type (section 5.1.1 of RFC 2046) and partitioning each piece again. */
module BodyParts {
  import opened Php
  import opened HeaderLexer
  import opened HeaderLookup

  /** A leaf part: its headers and its trimmed body. */
  datatype Leaf = Leaf(headers: seq<Header>, body: string)

  /** The content types whose parts carry headers of their own (line 193). */
  const MultipartTypes: set<string> :=
    {"multipart/alternative", "multipart/related", "multipart/mixed", "multipart/signed"}

  const BlankLine: string := "\r\n\r\n"

  /** A text read at the top level (no parent) or as a part of one of the multipart
      types above begins with headers; any other text is a body alone. */
  predicate HasHeaders(parent: Option<string>)
  {
    parent.None? || parent.value in MultipartTypes
  }

  /** The `boundary` parameter of the Content-Type, or "" (lines 200 and 218). */
  function BoundaryOf(headers: seq<Header>): string
  {
    var options := HeaderValueAndOptions(headers, "Content-Type").options;
    if "boundary" in options then options["boundary"] else ""
  }

  /** The Content-Type value, without its parameters (line 217). */
  function ContentTypeOf(headers: seq<Header>): string
  {
    HeaderValueAndOptions(headers, "Content-Type").value
  }

  /** Lines 216-218: the Content-Type value and its boundary. */
  method ReadContentType(headers: seq<Header>) returns (contentType: string, boundary: string)
    ensures contentType == ContentTypeOf(headers)
    ensures boundary == BoundaryOf(headers)
  {
    var contentTypeData := GetHeaderValueAndOptions(headers, "Content-Type");
    contentType := contentTypeData.value;
    boundary := if "boundary" in contentTypeData.options then contentTypeData.options["boundary"] else "";
  }

  /** The headers and the body a text is read as (lines 193-211). */
  datatype Envelope = Envelope(headers: seq<Header>, body: string)

  /** Line 196: the header block, the trimmed text before the first blank line. */
  function HeaderBlock(email: string): string
  {
    Trim(Explode2(BlankLine, email)[0])
  }

  /** Line 206: the trimmed text after the first blank line, or "". */
  function TextAfterBlank(email: string): string
  {
    var parts := Explode2(BlankLine, email);
    if |parts| == 2 then Trim(parts[1]) else ""
  }

  /** Line 203: the header block once more, now the trimmed text before the first
      `--boundary`. */
  function MarkedBlock(email: string, boundary: string): string
  {
    Trim(Explode2("--" + boundary, email)[0])
  }

  /** Line 204: the first marker, then the trimmed text after it. */
  function MarkedBody(email: string, boundary: string): string
  {
    var marked := Explode2("--" + boundary, email);
    "--" + boundary + if |marked| == 2 then Trim(marked[1]) else ""
  }

  /** Lines 193-211. With headers and a boundary, the headers are read again from the
      text before the first boundary marker, and the body is that marker followed by the
      trimmed rest; with headers and no boundary, the body is the trimmed text after the
      first blank line; without headers, the body is the whole text, trimmed. */
  function EnvelopeOf(email: string, parent: Option<string>): Envelope
  {
    if HasHeaders(parent) then
      var headers := HeaderFields(HeaderBlock(email));
      var boundary := BoundaryOf(headers);
      if |boundary| > 0 then Envelope(HeaderFields(MarkedBlock(email, boundary)), MarkedBody(email, boundary))
      else Envelope(headers, TextAfterBlank(email))
    else
      Envelope([], Trim(email))
  }

  /** Line 220: `strpos($body, '--' . $boundary) + strlen($boundary) + 2`. */
  function StartIndex(body: string, boundary: string): int
  {
    FalseAsZero(StrPos(body, "--" + boundary)) + |boundary| + 2
  }

  /** Line 221: `strpos($body, '--' . $body . '--') - 2`. */
  function EndIndex(body: string): int
  {
    FalseAsZero(StrPos(body, "--" + body + "--")) - 2
  }

  /** Line 222: the part of the body that is cut at the boundary markers. */
  function BoundarySlice(body: string, boundary: string): string
  {
    var start := StartIndex(body, boundary);
    FalseAsEmpty(Substr(body, start, EndIndex(body) - start))
  }

  /** Line 222: the slice split at every `--boundary`. */
  function Pieces(body: string, boundary: string): (r: seq<string>)
    ensures |r| > 0
  {
    Explode("--" + boundary, BoundarySlice(body, boundary))
  }

  /** Line 223: the pieces, trimmed. */
  function Chunks(body: string, boundary: string): (r: seq<string>)
    ensures |r| == |Pieces(body, boundary)|
  {
    var pieces := Pieces(body, boundary);
    seq(|pieces|, i requires 0 <= i < |pieces| => Trim(pieces[i]))
  }

  /** The leaves of each part, in order (lines 224-228). */
  function Flatten(parts: seq<seq<Leaf>>): seq<Leaf>
  {
    if parts == [] then [] else Flatten(parts[..|parts| - 1]) + parts[|parts| - 1]
  }

  /** Every chunk of the envelope's body, if it names a boundary, is shorter than
      `bound`. */
  predicate ShorterChunks(env: Envelope, bound: nat)
  {
    var boundary := BoundaryOf(env.headers);
    |boundary| > 0 ==> AllShorter(Chunks(env.body, boundary), bound)
  }

  /** Every text of `texts` is shorter than `bound`. */
  predicate AllShorter(texts: seq<string>, bound: nat)
  {
    forall i :: 0 <= i < |texts| ==> |texts[i]| < bound
  }

  /** `getBodyParts($email, $parent)` as a value (lines 191-235). */
  function BodyParts(email: string, parent: Option<string>): seq<Leaf>
    decreases |email|, 2
  {
    ChunksShorter(email, parent);
    PartsOf(EnvelopeOf(email, parent), |email|)
  }

  /** Lines 213-234: the leaves of an envelope. An empty body has none; a body without
      a boundary is one leaf; otherwise each chunk is read as a part of the envelope's
      content type, and the leaves of all chunks are kept in order. */
  function PartsOf(env: Envelope, bound: nat): seq<Leaf>
    requires ShorterChunks(env, bound)
    decreases bound, 1
  {
    if |env.body| == 0 then []
    else
      var boundary := BoundaryOf(env.headers);
      if |boundary| > 0 then
        Children(Chunks(env.body, boundary), ContentTypeOf(env.headers), bound)
      else
        [Leaf(env.headers, Trim(env.body))]
  }

  /** Lines 224-228: the leaves of every chunk, read as a part of `contentType`, in the
      order of the chunks. */
  function Children(chunks: seq<string>, contentType: string, bound: nat): seq<Leaf>
    requires AllShorter(chunks, bound)
    decreases bound, 0, |chunks|
  {
    if chunks == [] then []
    else Children(chunks[..|chunks| - 1], contentType, bound) + BodyParts(chunks[|chunks| - 1], Some(contentType))
  }

  /** Lines 191-235. */
  method GetBodyParts(email: string, parent: Option<string>) returns (leaves: seq<Leaf>)
    ensures leaves == BodyParts(email, parent)
    decreases |email|, 3
  {
    var env := ReadEnvelope(email, parent);
    ChunksShorter(email, parent);
    leaves := GetParts(env, |email|);
  }

  /** Lines 213-234. */
  method GetParts(env: Envelope, ghost bound: nat) returns (leaves: seq<Leaf>)
    requires ShorterChunks(env, bound)
    ensures leaves == PartsOf(env, bound)
    decreases bound, 1
  {
    var headers := env.headers;
    var body := env.body;
    if |body| == 0 {
      return [];
    }
    var contentType, boundary := ReadContentType(headers);
    if |boundary| > 0 {
      var chunks := SplitAtBoundary(body, boundary);
      assert PartsOf(env, bound) == Children(chunks, contentType, bound);
      leaves := MergeChildren(chunks, contentType, bound);
    } else {
      assert PartsOf(env, bound) == [Leaf(headers, Trim(body))];
      leaves := [Leaf(headers, Trim(body))];
    }
  }

  /** Lines 220-223: the slice between the markers, cut at every marker and trimmed. */
  method SplitAtBoundary(body: string, boundary: string) returns (chunks: seq<string>)
    ensures chunks == Chunks(body, boundary)
  {
    var startIndex := FalseAsZero(StrPos(body, "--" + boundary)) + |boundary| + 2;
    var endIndex := FalseAsZero(StrPos(body, "--" + body + "--")) - 2;
    assert startIndex == StartIndex(body, boundary) && endIndex == EndIndex(body);
    var slice := FalseAsEmpty(Substr(body, startIndex, endIndex - startIndex));
    assert slice == BoundarySlice(body, boundary);
    var pieces := Explode("--" + boundary, slice);
    chunks := seq(|pieces|, i requires 0 <= i < |pieces| => Trim(pieces[i]));
  }

  /** Lines 224-228. */
  method MergeChildren(chunks: seq<string>, contentType: string, ghost bound: nat) returns (temp: seq<Leaf>)
    requires AllShorter(chunks, bound)
    ensures temp == Children(chunks, contentType, bound)
    decreases bound, 0
  {
    temp := [];
    var i := 0;
    while i < |chunks|
      invariant 0 <= i <= |chunks|
      invariant temp == Children(chunks[..i], contentType, bound)
    {
      assert chunks[..i + 1][..i] == chunks[..i];
      var childBodyParts := GetBodyParts(chunks[i], Some(contentType));
      temp := temp + childBodyParts;
      i := i + 1;
    }
    assert chunks[..i] == chunks;
  }

  /** Lines 193-211. */
  method ReadEnvelope(email: string, parent: Option<string>) returns (env: Envelope)
    ensures env == EnvelopeOf(email, parent)
  {
    if parent.None? || parent.value == "multipart/alternative" || parent.value == "multipart/related"
      || parent.value == "multipart/mixed" || parent.value == "multipart/signed"
    {
      assert HasHeaders(parent);
      var parts := Explode2(BlankLine, email);
      var headers := ParseHeaders(Trim(parts[0]));
      assert headers == HeaderFields(HeaderBlock(email));
      var contentTypeData := GetHeaderValueAndOptions(headers, "Content-Type");
      var boundary := if "boundary" in contentTypeData.options then contentTypeData.options["boundary"] else "";
      assert boundary == BoundaryOf(headers);
      if |boundary| > 0 {
        var marked := Explode2("--" + boundary, email);
        headers := ParseHeaders(Trim(marked[0]));
        env := Envelope(headers, "--" + boundary + if |marked| == 2 then Trim(marked[1]) else "");
        assert env == Envelope(HeaderFields(MarkedBlock(email, boundary)), MarkedBody(email, boundary));
      } else {
        env := Envelope(headers, if |parts| == 2 then Trim(parts[1]) else "");
        assert env == Envelope(HeaderFields(HeaderBlock(email)), TextAfterBlank(email));
      }
    } else {
      assert !HasHeaders(parent);
      env := Envelope([], Trim(email));
    }
  }

  /** The needle at line 221 is longer than the body, so `strpos` gives false, read as
      0: the end index is always -2. */
  lemma EndIndexIsMinusTwo(body: string)
    ensures EndIndex(body) == -2
  {
    StrPosTooLong(body, "--" + body + "--");
  }

  /** The slice begins `|boundary| + 2` after the first marker (or after the start, when
      there is none) and ends two characters before the place where it begins, counted
      from the end of the body; when those cross, it is empty. */
  lemma SliceFormula(body: string, boundary: string)
    ensures var start := StartIndex(body, boundary);
      BoundarySlice(body, boundary) == if 2 * start + 2 <= |body| then body[start..|body| - 2 - start] else ""
  {
    EndIndexIsMinusTwo(body);
  }

  /** For a body that opens with its marker, the slice drops the marker and the last
      `|boundary| + 4` characters. */
  lemma MarkedSlice(boundary: string, rest: string)
    ensures var body := "--" + boundary + rest;
      BoundarySlice(body, boundary)
      == if |rest| >= |boundary| + 4 then body[|boundary| + 2..|body| - |boundary| - 4] else ""
  {
    var body := "--" + boundary + rest;
    StrPosAtStart(body, "--" + boundary);
    SliceFormula(body, boundary);
  }

  /** A body that opens with `--boundary` and ends with `--boundary--` is sliced to
      exactly the text between the two. */
  lemma TerminatedSlice(boundary: string, inner: string)
    ensures BoundarySlice("--" + boundary + inner + "--" + boundary + "--", boundary) == inner
  {
    var rest := inner + "--" + boundary + "--";
    var body := "--" + boundary + rest;
    assert body == "--" + boundary + inner + "--" + boundary + "--";
    MarkedSlice(boundary, rest);
    assert body[|boundary| + 2..|body| - |boundary| - 4] == inner;
  }

  /** The pieces, joined again with the marker, give back the slice; the chunks are the
      pieces trimmed, and no piece holds a marker. */
  lemma ChunksRejoin(body: string, boundary: string)
    ensures Join("--" + boundary, Pieces(body, boundary)) == BoundarySlice(body, boundary)
    ensures forall i :: 0 <= i < |Pieces(body, boundary)| ==> Free(Pieces(body, boundary)[i], "--" + boundary)
    ensures forall i :: 0 <= i < |Chunks(body, boundary)| ==>
      Chunks(body, boundary)[i] == Trim(Pieces(body, boundary)[i])
  {
    ExplodeJoin("--" + boundary, BoundarySlice(body, boundary));
  }

  /** A non-empty slice is shorter than the body by at least twice the boundary and six
      characters: two `--boundary` markers and two characters more. */
  lemma SliceBound(body: string, boundary: string)
    requires |boundary| > 0
    ensures BoundarySlice(body, boundary) == []
      || |BoundarySlice(body, boundary)| + 2 * |boundary| + 6 <= |body|
  {
    SliceFormula(body, boundary);
  }

  /** No boundary is longer than the header values it is read from. */
  lemma BoundaryBound(headers: seq<Header>, n: nat)
    requires forall i :: 0 <= i < |headers| ==> |headers[i].value| <= n
    ensures |BoundaryOf(headers)| <= n
  {
    HeaderValueAndOptionsBound(headers, "Content-Type", n);
  }

  /** A marked body is at most two characters longer than the text it was read from. */
  lemma MarkedBodyBound(email: string, boundary: string)
    requires |boundary| <= |email|
    ensures |MarkedBody(email, boundary)| <= |email| + 2
  {
    Explode2Join("--" + boundary, email);
  }

  /** The chunks of a body at most two characters longer than a non-empty text are
      shorter than that text. */
  lemma ChunkBound(body: string, boundary: string, n: nat)
    requires |boundary| > 0 && n > 0 && |body| <= n + 2
    ensures forall i :: 0 <= i < |Chunks(body, boundary)| ==> |Chunks(body, boundary)[i]| < n
  {
    SliceBound(body, boundary);
    ExplodeBound("--" + boundary, BoundarySlice(body, boundary));
  }

  /** Text that names a boundary has headers and a non-empty boundary in its first header
      block, no longer than the text; its body is the marked body. */
  lemma EnvelopeWithBoundary(email: string, parent: Option<string>)
    requires |BoundaryOf(EnvelopeOf(email, parent).headers)| > 0
    ensures HasHeaders(parent)
    ensures var boundary := BoundaryOf(HeaderFields(HeaderBlock(email)));
      0 < |boundary| <= |email| && EnvelopeOf(email, parent).body == MarkedBody(email, boundary)
  {
    var block := HeaderBlock(email);
    ExplodeBound(BlankLine, email);
    HeaderValueBound(block);
    BoundaryBound(HeaderFields(block), |block|);
  }

  /** Every chunk is shorter than the text it was cut from, so the recursion of
      `getBodyParts` ends. */
  lemma ChunksShorter(email: string, parent: Option<string>)
    ensures ShorterChunks(EnvelopeOf(email, parent), |email|)
  {
    var env := EnvelopeOf(email, parent);
    if |BoundaryOf(env.headers)| > 0 {
      EnvelopeWithBoundary(email, parent);
      MarkedBodyBound(email, BoundaryOf(HeaderFields(HeaderBlock(email))));
      ChunkBound(env.body, BoundaryOf(env.headers), |email|);
    }
  }

  /** Each leaf of a flattened list is a leaf of one of the lists. */
  lemma {:induction false} FlattenMembers(parts: seq<seq<Leaf>>, leaf: Leaf)
    ensures leaf in Flatten(parts) <==> exists i :: 0 <= i < |parts| && leaf in parts[i]
    decreases |parts|
  {
    if parts != [] {
      FlattenMembers(parts[..|parts| - 1], leaf);
    }
  }

  /** Every leaf body is non-empty and is its own trim. */
  predicate WellFormed(leaves: seq<Leaf>)
  {
    forall i :: 0 <= i < |leaves| ==> |leaves[i].body| > 0 && Trim(leaves[i].body) == leaves[i].body
  }

  /** A marked body opens with `-`, so it does not trim to nothing. */
  lemma MarkedBodyTrims(email: string, boundary: string)
    ensures |Trim(MarkedBody(email, boundary))| > 0
  {
    TrimKeepsFirst(MarkedBody(email, boundary));
  }

  lemma TextAfterBlankTrimmed(email: string)
    ensures Trim(TextAfterBlank(email)) == TextAfterBlank(email)
  {
    var parts := Explode2(BlankLine, email);
    if |parts| == 2 {
      TrimIdempotent(parts[1]);
    }
  }

  /** The boundary is trimmed, as every parameter value is. */
  lemma BoundaryTrimmed(headers: seq<Header>)
    ensures Trim(BoundaryOf(headers)) == BoundaryOf(headers)
  {
    if "boundary" in HeaderValueAndOptions(headers, "Content-Type").options {
      OptionTrimmed(headers, "Content-Type", "boundary");
    } else {
      TrimEmpty("");
    }
  }

  /** A marked body read with a trimmed boundary begins with `-` and ends with the last
      character of the boundary or of the trimmed rest, so it is its own trim. */
  lemma MarkedBodyTrimmed(email: string, boundary: string)
    requires |boundary| > 0 && Trim(boundary) == boundary
    ensures Trim(MarkedBody(email, boundary)) == MarkedBody(email, boundary)
  {
    var marked := Explode2("--" + boundary, email);
    var rest := if |marked| == 2 then Trim(marked[1]) else "";
    var m := MarkedBody(email, boundary);
    assert m == "--" + boundary + rest;
    if |rest| > 0 {
      TrimCharsEnds(marked[1], Whitespace);
      assert m[|m| - 1] == rest[|rest| - 1];
    } else {
      TrimCharsEnds(boundary, Whitespace);
      assert m[|m| - 1] == boundary[|boundary| - 1];
    }
    TrimFixed(m);
  }

  /** The body of every envelope is its own trim. */
  lemma EnvelopeBodyTrimmed(email: string, parent: Option<string>)
    ensures Trim(EnvelopeOf(email, parent).body) == EnvelopeOf(email, parent).body
  {
    if !HasHeaders(parent) {
      TrimIdempotent(email);
    } else {
      var boundary := BoundaryOf(HeaderFields(HeaderBlock(email)));
      if |boundary| > 0 {
        BoundaryTrimmed(HeaderFields(HeaderBlock(email)));
        MarkedBodyTrimmed(email, boundary);
      } else {
        TextAfterBlankTrimmed(email);
      }
    }
  }

  /** A non-empty envelope body does not trim to nothing. */
  lemma EnvelopeBodyTrims(email: string, parent: Option<string>)
    ensures var body := EnvelopeOf(email, parent).body;
      |body| > 0 ==> |Trim(body)| > 0
  {
    if !HasHeaders(parent) {
      TrimIdempotent(email);
    } else {
      var boundary := BoundaryOf(HeaderFields(HeaderBlock(email)));
      if |boundary| > 0 {
        MarkedBodyTrims(email, boundary);
      } else {
        TextAfterBlankTrimmed(email);
      }
    }
  }

  /** `getBodyParts` yields only leaves with non-empty, trimmed bodies. */
  lemma {:induction false} BodyPartsWellFormed(email: string, parent: Option<string>)
    ensures WellFormed(BodyParts(email, parent))
    decreases |email|, 2
  {
    ChunksShorter(email, parent);
    EnvelopeBodyTrims(email, parent);
    PartsOfWellFormed(EnvelopeOf(email, parent), |email|);
  }

  lemma {:induction false} PartsOfWellFormed(env: Envelope, bound: nat)
    requires ShorterChunks(env, bound)
    requires |env.body| > 0 ==> |Trim(env.body)| > 0
    ensures WellFormed(PartsOf(env, bound))
    decreases bound, 1
  {
    if |env.body| > 0 {
      var boundary := BoundaryOf(env.headers);
      if |boundary| > 0 {
        ChildrenWellFormed(Chunks(env.body, boundary), ContentTypeOf(env.headers), bound);
      } else {
        TrimIdempotent(env.body);
      }
    }
  }

  lemma {:induction false} ChildrenWellFormed(chunks: seq<string>, contentType: string, bound: nat)
    requires AllShorter(chunks, bound)
    ensures WellFormed(Children(chunks, contentType, bound))
    decreases bound, 0, |chunks|
  {
    if chunks != [] {
      ChildrenWellFormed(chunks[..|chunks| - 1], contentType, bound);
      BodyPartsWellFormed(chunks[|chunks| - 1], Some(contentType));
    }
  }

  /** Reading the chunks one by one is reading each chunk and flattening the results. */
  lemma {:induction false} ChildrenIsFlatten(chunks: seq<string>, contentType: string, bound: nat)
    requires AllShorter(chunks, bound)
    ensures Children(chunks, contentType, bound)
      == Flatten(seq(|chunks|, i requires 0 <= i < |chunks| => BodyParts(chunks[i], Some(contentType))))
    decreases |chunks|
  {
    if chunks != [] {
      var init := chunks[..|chunks| - 1];
      ChildrenIsFlatten(init, contentType, bound);
      var kids := seq(|chunks|, i requires 0 <= i < |chunks| => BodyParts(chunks[i], Some(contentType)));
      assert kids[..|kids| - 1] == seq(|init|, i requires 0 <= i < |init| => BodyParts(init[i], Some(contentType)));
    }
  }

  /** Nothing but whitespace stays so in any piece cut from it. */
  lemma BlankPieces(email: string, sep: string)
    requires |sep| > 0
    requires forall k :: 0 <= k < |email| ==> email[k] in Whitespace
    ensures forall i :: 0 <= i < |Explode2(sep, email)| ==> Trim(Explode2(sep, email)[i]) == ""
  {
    match StrPos(email, sep)
    case None =>
      BlankSlice(email, 0, |email|);
      assert email[0..|email|] == email;
    case Some(p) =>
      BlankSlice(email, 0, p);
      assert email[0..p] == email[..p];
      BlankSlice(email, p + |sep|, |email|);
      assert email[p + |sep|..|email|] == email[p + |sep|..];
  }

  /** Any slice of whitespace trims to nothing. */
  lemma BlankSlice(s: string, lo: nat, hi: nat)
    requires lo <= hi <= |s|
    requires forall k :: 0 <= k < |s| ==> s[k] in Whitespace
    ensures Trim(s[lo..hi]) == ""
  {
    TrimEmpty(s[lo..hi]);
  }

  /** Text that is empty after trimming has no parts. */
  lemma BodyPartsOfBlank(email: string, parent: Option<string>)
    requires Trim(email) == ""
    ensures BodyParts(email, parent) == []
  {
    TrimEmpty(email);
    if HasHeaders(parent) {
      BlankPieces(email, BlankLine);
      assert HeaderBlock(email) == "";
      NoBoundaryInBlankBlock();
      assert TextAfterBlank(email) == "";
    }
  }

  /** An empty header block names no boundary. */
  lemma NoBoundaryInBlankBlock()
    ensures BoundaryOf(HeaderFields("")) == ""
  {
    BlankBlockFields();
    NamelessField("Content-Type");
  }

  /** An empty header block is read as one field with an empty name and value. */
  lemma BlankBlockFields()
    ensures HeaderFields("") == [Header("", "")]
  {
    assert Trim("") == "";
    StrPosTooLong("", CRLF);
    assert Lines("") == [""];
    assert [""][..0] == [];
    assert Unfolded([""]) == [""];
    StrPosTooLong("", ":");
    assert SplitField("") == Header("", "");
  }

  /** A field without a name matches no name that is not empty. */
  lemma NamelessField(name: string)
    requires |name| > 0
    ensures HeaderValueAndOptions([Header("", "")], name) == ValueAndOptions("", map[])
  {
    assert |Lower(name)| > 0 == |Lower("")|;
    assert [Header("", "")][1..] == [];
  }

  /** Text read as a part of a non-multipart type is one leaf with no headers: its whole
      trimmed text is the body. */
  lemma NonMultipartIsOneLeaf(email: string, contentType: string)
    requires contentType !in MultipartTypes
    requires Trim(email) != ""
    ensures BodyParts(email, Some(contentType)) == [Leaf([], Trim(email))]
  {
    TrimIdempotent(email);
  }

  /** Lines 213-234: an empty body has no leaves; a body without a boundary is one leaf
      holding the headers and the trimmed body; a body with one has, in order, the
      leaves of every chunk read as a part of the envelope's content type. */
  lemma PartsOfStructure(env: Envelope, bound: nat)
    requires ShorterChunks(env, bound)
    ensures |env.body| == 0 ==> PartsOf(env, bound) == []
    ensures |env.body| > 0 && |BoundaryOf(env.headers)| == 0 ==>
      PartsOf(env, bound) == [Leaf(env.headers, Trim(env.body))]
    ensures var chunks := Chunks(env.body, BoundaryOf(env.headers));
      |env.body| > 0 && |BoundaryOf(env.headers)| > 0 ==>
        PartsOf(env, bound)
        == Flatten(seq(|chunks|, i requires 0 <= i < |chunks| => BodyParts(chunks[i], Some(ContentTypeOf(env.headers)))))
  {
    if |env.body| > 0 && |BoundaryOf(env.headers)| > 0 {
      ChildrenIsFlatten(Chunks(env.body, BoundaryOf(env.headers)), ContentTypeOf(env.headers), bound);
    }
  }

  /** The same for `getBodyParts`, read from the envelope of the text. */
  lemma BodyPartsStructure(email: string, parent: Option<string>)
    ensures var env := EnvelopeOf(email, parent);
      |env.body| == 0 ==> BodyParts(email, parent) == []
    ensures var env := EnvelopeOf(email, parent);
      |env.body| > 0 && |BoundaryOf(env.headers)| == 0 ==> BodyParts(email, parent) == [Leaf(env.headers, env.body)]
    ensures var env := EnvelopeOf(email, parent);
      var chunks := Chunks(env.body, BoundaryOf(env.headers));
      |env.body| > 0 && |BoundaryOf(env.headers)| > 0 ==>
        BodyParts(email, parent)
        == Flatten(seq(|chunks|, i requires 0 <= i < |chunks| => BodyParts(chunks[i], Some(ContentTypeOf(env.headers)))))
  {
    var env := EnvelopeOf(email, parent);
    ChunksShorter(email, parent);
    PartsOfStructure(env, |email|);
    EnvelopeBodyTrimmed(email, parent);
  }

  /** The merged leaves are the leaves of the chunks and nothing else: a leaf is merged
      exactly when reading some chunk yields it. */
  lemma ChildrenMembers(chunks: seq<string>, contentType: string, bound: nat, leaf: Leaf)
    requires AllShorter(chunks, bound)
    ensures leaf in Children(chunks, contentType, bound)
      <==> exists i :: 0 <= i < |chunks| && leaf in BodyParts(chunks[i], Some(contentType))
  {
    var kids := seq(|chunks|, i requires 0 <= i < |chunks| => BodyParts(chunks[i], Some(contentType)));
    ChildrenIsFlatten(chunks, contentType, bound);
    FlattenMembers(kids, leaf);
    assert forall i :: 0 <= i < |chunks| ==> kids[i] == BodyParts(chunks[i], Some(contentType));
  }
}
