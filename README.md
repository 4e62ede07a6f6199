# A verified model of the PHP e-mail parser `IvoPetkov\EmailParser`

The parser takes one raw message, with CRLF line ends, and returns:

- its delivery date and date;
- its subject;
- its To, From and Reply-To addresses;
- its plain-text and HTML bodies;
- its attachments.

It does so by string processing alone:

- The header block is unfolded into fields (`parseHeaders`).
- Fields are looked up by case-insensitive name (`getHeaderValue`). A header value is
  split into a primary value and `;key=value` parameters (`getHeaderValueAndOptions`).
- An address is cut out of a `Name <address>` form (`parseEmailAdress`).
- The message is split recursively into leaf parts at the boundary markers of its
  Content-Type (`getBodyParts`).
- Each leaf is decoded by its Content-Transfer-Encoding and charset (`decodeBodyPart`).
- The leaves are classified as text, HTML or attachments (`parse`). Then every `cid:`
  reference to an inline attachment is rewritten into a `data:` URL.

The model follows the code, including its quirks:

- At line 221 the end index is always -2, because the needle `'--' . $body . '--'` is
  longer than the body.
- At line 68 a `cid:` reference at position 0 suppresses the rewriting, because `strpos`
  returning 0 reads as false.
- Content-type and transfer-encoding names are compared case-sensitively. Header names
  and charsets are compared case-insensitively.

Each imperative PHP function has two forms:

- a Dafny function that states what it computes;
- a method with the same loops, whose postcondition is that function.

Properties are proved as lemmas about the functions.

Modules:

- `Php` (`php.dfy`): the PHP built-ins the parser relies on, with PHP 7 semantics.
  - `trim` and its character lists.
  - ASCII `strtolower`.
  - `strpos`, as `Option<nat>`, with `false` read as 0 where PHP does.
  - `explode`, also with limit 2.
  - `substr`, including a negative length and a start past the end.
  - `str_replace`.
- `HeaderLexer` (`header_lexer.dfy`): `parseHeaders`.
- `HeaderLookup` (`header_lookup.dfy`): `getHeaderValue` and `getHeaderValueAndOptions`.
- `Address` (`address.dfy`): `parseEmailAdress`. The pattern `(.*)<(.*)>` is written as a scan: the last `<` before the last `>`, within the first line that has such a pair.
- `Library` (`library.dfy`): the library calls, taken as parameters of type `Runtime`.
  - `imap_mime_header_decode`
  - `base64_decode` and `base64_encode`
  - `quoted_printable_decode`
  - `mb_convert_encoding` and `mb_list_encodings`
  - `strtotime`
- `BodyDecoder` (`body_decoder.dfy`): `decodeBodyPart`.
- `BodyParts` (`body_parts.dfy`): `getBodyParts`, with a proof that the recursion terminates.
- `EmailParser` (`email_parser.dfy`): `parse`.

## Model

| member | source | states |
|---|---|---|
| Php.Trim | src/EmailParser.php:100 | `trim` with its default list of whitespace; never longer than its input |
| Php.TrimIdempotent | src/EmailParser.php:100 | trimming twice is trimming once |
| Php.TrimEmpty | src/EmailParser.php:213 | a text trims to nothing exactly when all of it is whitespace |
| Php.TrimKeepsFirst | src/EmailParser.php:204 | a text starting with a non-whitespace character does not trim to nothing |
| Php.TrimFixed | src/EmailParser.php:204 | a text that neither starts nor ends with whitespace is its own trim |
| Php.TrimChars | src/EmailParser.php:55 | `trim($s, $chars)` is never longer than its input |
| Php.TrimCharsEnds | src/EmailParser.php:55 | after `trim($s, $chars)` neither end is one of the characters |
| Php.TrimCharsIdempotent | src/EmailParser.php:55 | trimming a character list twice is trimming it once |
| Php.TrimCharsKeeps | src/EmailParser.php:115-116 | trimming never removes or adds a character outside the list |
| Php.Lower | src/EmailParser.php:129 | ASCII `strtolower` keeps the length |
| Php.LowerAt | src/EmailParser.php:129 | each character is lowered on its own |
| Php.LowerIdempotent | src/EmailParser.php:129 | lowering twice is lowering once |
| Php.LowerKeeps | src/EmailParser.php:159 | a non-letter occurs in the lowered text exactly when it occurs in the text |
| Php.StrPos | src/EmailParser.php:220-221 | the result is an occurrence with none before it; None means no occurrence, or an empty needle |
| Php.StrPosAtStart | src/EmailParser.php:220 | a text that starts with the needle finds it at 0 |
| Php.StrPosTooLong | src/EmailParser.php:221 | a needle longer than the text is never found |
| Php.Explode | src/EmailParser.php:100 | explode yields at least one piece |
| Php.ExplodeJoin | src/EmailParser.php:222 | the pieces, joined with the separator, rebuild the text; no piece holds the separator |
| Php.ExplodeLeftmost | src/EmailParser.php:69 | each cut is at the first occurrence of the separator after the previous cut, even for a separator that overlaps itself |
| Php.ExplodeUnique | src/EmailParser.php:69 | a cut that rejoins to the text, has no separator inside a piece and is leftmost is the cut explode makes |
| Php.FirstCut | src/EmailParser.php:69 | when no occurrence of the separator starts inside the first piece, the first occurrence in the joined text follows that piece |
| Php.LeftmostTail | src/EmailParser.php:69 | a leftmost cut stays leftmost without its first piece |
| Php.FirstPieceLeftmost | src/EmailParser.php:69 | no occurrence of the separator starts inside the text before its first occurrence |
| Php.Explode2 | src/EmailParser.php:115 | explode with limit 2 yields one or two pieces |
| Php.Explode2Join | src/EmailParser.php:115 | the two pieces rebuild the text; the first holds no separator; there is one piece exactly when the text holds no separator |
| Php.Explode2Leftmost | src/EmailParser.php:195 | explode with limit 2 cuts at the first occurrence |
| Php.PrefixFree | src/EmailParser.php:115 | the text before the first occurrence holds no occurrence |
| Php.ExplodeBound | src/EmailParser.php:222 | no piece is longer than the text |
| Php.Substr | src/EmailParser.php:222 | false for a start past the end; for a start within the text and a negative length, false when the length reaches back before the start, otherwise the text from start up to that many characters before the end; for a non-negative length, the text from start, clipped to the end; for a negative start and a negative length, false exactly when the length exceeds the whole text |
| Php.ReplaceAll | src/EmailParser.php:69 | `str_replace` leaves a text without the needle unchanged |
| Php.JoinPieceBound | src/EmailParser.php:100 | no piece is longer than the joined text |
| Php.FreeChar | src/EmailParser.php:156-158 | a one-character needle occurs nowhere exactly when the character is absent |
| HeaderLexer.Lines | src/EmailParser.php:100 | the trimmed block split at CRLF has at least one line |
| HeaderLexer.LogicalFields | src/EmailParser.php:102-112 | the field-by-field reading yields no fields exactly when there are no lines |
| HeaderLexer.LogicalFieldsSnoc | src/EmailParser.php:103-111 | one more line changes the field-by-field reading exactly as one more loop step changes its list |
| HeaderLexer.ParseHeaders | src/EmailParser.php:98-119 | the two loops compute the fields: lines are unfolded as read, then each is split at its first colon |
| HeaderLexer.UnfoldedIsLogicalFields | src/EmailParser.php:102-112 | the loop's in-place unfolding equals the field-by-field reading: a field line opens a field, and each other line joins the open field after one space |
| HeaderLexer.GroupedSnoc | src/EmailParser.php:103-111 | reading one more line extends the field-by-field reading as the loop extends its list |
| HeaderLexer.UnfoldedCount | src/EmailParser.php:102-112 | one field per line starting with a letter or digit, plus one when the first line does not |
| HeaderLexer.FoldedPair | src/EmailParser.php:107 | a field line and a continuation make one field joined by one space |
| HeaderLexer.HeaderFieldsShape | src/EmailParser.php:98-119 | at least one field, with field i the split of logical line i, in order |
| HeaderLexer.SplitFieldFacts | src/EmailParser.php:115-116 | the name is trimmed and holds no colon; the value is trimmed and "" without a colon; both are the two sides of the first colon |
| HeaderLexer.UnfoldedBound | src/EmailParser.php:102-112 | no logical line is longer than the lines it came from |
| HeaderLexer.HeaderValueBound | src/EmailParser.php:98-119 | no header value is longer than the block |
| HeaderLookup.HeaderValue | src/EmailParser.php:127-136 | the value of the first header whose lower-cased name equals the lower-cased query, or "" when none does |
| HeaderLookup.HeaderValueFirstWins | src/EmailParser.php:130-134 | headers after the first match are never consulted |
| HeaderLookup.FirstMatchIndex | src/EmailParser.php:130-131 | when some header matches, there is a first match |
| HeaderLookup.GetHeaderValueAndOptions | src/EmailParser.php:144-168 | the loop returns the parse of the first matching header, or `('', {})` |
| HeaderLookup.ParseHeaderValue | src/EmailParser.php:149-164 | the loop over the segments collects exactly the options of the reference fold |
| HeaderLookup.ReadOption | src/EmailParser.php:155-160 | one segment adds the parameter it defines, overwriting the key; a segment defining none leaves the options unchanged |
| HeaderLookup.ParametersSnoc | src/EmailParser.php:154-162 | reading one more segment extends the options as one more loop step does |
| HeaderLookup.HeaderValueAndOptionsIsParseOfValue | src/EmailParser.php:144-168 | both lookups read the same header: the value and options are the parse of `getHeaderValue` |
| HeaderLookup.ParseValueEmpty | src/EmailParser.php:167 | no match gives `('', {})`, as an empty value does |
| HeaderLookup.ParseValueFacts | src/EmailParser.php:149-150 | the primary value is the trimmed text before the first `;` of the trimmed header value, or that whole trimmed value without a `;`; it holds no `;` and is trimmed |
| HeaderLookup.Parameters | src/EmailParser.php:154-162 | one parameter reading per segment after the first |
| HeaderLookup.ParameterDefined | src/EmailParser.php:156-158 | a segment defines a parameter exactly when it contains `=`; then the key is the trimmed, lower-cased text before the first `=` of the trimmed segment, and the value the text after it trimmed of whitespace, then of quotes, then of whitespace once more |
| HeaderLookup.ParameterShape | src/EmailParser.php:159 | the key is lower case and holds no `=`; the value is trimmed of whitespace (a quote inside surrounding whitespace can survive) and no longer than the segment |
| HeaderLookup.OptionsKeysDefined | src/EmailParser.php:159 | every key present was defined by some segment |
| HeaderLookup.OptionsLastWins | src/EmailParser.php:159 | a repeated key holds the value of its last definition |
| HeaderLookup.OptionsBound | src/EmailParser.php:159 | no option value is longer than the longest defined value |
| HeaderLookup.ParseValueBound | src/EmailParser.php:149-164 | no option value is longer than the header value |
| HeaderLookup.OptionsTrimmed | src/EmailParser.php:159 | when every defined value is trimmed, every option value is |
| HeaderLookup.ParseValueTrimmed | src/EmailParser.php:149-164 | every option value of a header value is trimmed |
| HeaderLookup.HeaderValueAndOptionsTrimmed | src/EmailParser.php:144-168 | every option value `getHeaderValueAndOptions` returns is trimmed |
| HeaderLookup.OptionTrimmed | src/EmailParser.php:144-168 | the same for one given option |
| HeaderLookup.HeaderValueAndOptionsBound | src/EmailParser.php:144-168 | no option value is longer than the longest header value |
| Address.LastIndexOf | src/EmailParser.php:178 | the position of the last occurrence of a character, or None when it is absent |
| Address.ParseEmailAddress | src/EmailParser.php:175-183 | no match gives `(input, '')`; a match gives group 2 as the address |
| Address.MatchInLineSpec | src/EmailParser.php:178 | a line matches exactly when some `<` has a `>` after it; the groups are cut at the last `<` before the last `>`; they are the longest group 1, then the longest group 2 |
| Address.GreedyPairUnique | src/EmailParser.php:178 | that cut is unique |
| Address.AddressMatchSingleLine | src/EmailParser.php:178 | input without a line feed is matched as one line |
| Address.AddressMatchFirstLine | src/EmailParser.php:178 | a line is consulted only when no earlier line matches |
| Address.ParseEmailAddressSpec | src/EmailParser.php:178-182 | for a line without a line feed: with a `<` before a `>`, the address is the text strictly inside the greedy pair, and the name is the decoded text before it, trimmed and unquoted; otherwise `(input, '')` |
| BodyDecoder.LineBreaksRemoved | src/EmailParser.php:249 | the removal of `\r?\n` leaves no line feed and never lengthens the text |
| BodyDecoder.LineBreaksRemovedKeeps | src/EmailParser.php:249 | a text without a line feed is unchanged |
| BodyDecoder.LineBreaksRemovedIdempotent | src/EmailParser.php:249 | removing the line breaks twice is removing them once |
| BodyDecoder.LineBreaksRemovedAppend | src/EmailParser.php:249 | removal works piece by piece unless a CRLF straddles the pieces |
| BodyDecoder.LineBreaksRemovedCrlf | src/EmailParser.php:249 | CRLF-separated lines run together |
| BodyDecoder.ListsCharset | src/EmailParser.php:259-266 | true exactly when some entry of the list has the charset as its lower-case form |
| BodyDecoder.FindEncoding | src/EmailParser.php:260-266 | the search loop with its early exit finds a match exactly when the list has one |
| BodyDecoder.Decode | src/EmailParser.php:248-272 | the transfer decoding, then the conversion, computed by the reference definition |
| BodyDecoder.DecodeBodyPart | src/EmailParser.php:243-273 | the two header lookups, then the decoding |
| BodyDecoder.DecodedBodyWithoutConversion | src/EmailParser.php:257-270 | without a conversion the result is the transfer-decoded body |
| BodyDecoder.DecodedBodyUnchanged | src/EmailParser.php:248-272 | with neither a known encoding nor a conversion, the body is returned as it is |
| BodyDecoder.TransferEncodingIsCaseSensitive | src/EmailParser.php:248-255 | any encoding name other than the exact `base64` and `quoted-printable` (so `BASE64`, `Quoted-Printable` and `7bit` too) leaves the body unchanged |
| BodyDecoder.Utf8NeverConverts | src/EmailParser.php:257 | a charset spelling `utf-8` in any letter case never converts |
| BodyParts.ReadEnvelope | src/EmailParser.php:193-211 | the headers and body are read as the three cases prescribe: headers and boundary, headers only, or a bare body |
| BodyParts.ReadContentType | src/EmailParser.php:216-218 | the Content-Type value and its boundary parameter, or "" |
| BodyParts.GetBodyParts | src/EmailParser.php:191-235 | the recursive method computes the reference leaves |
| BodyParts.GetParts | src/EmailParser.php:213-234 | no leaves for an empty body; one leaf without a boundary; otherwise the children's leaves |
| BodyParts.SplitAtBoundary | src/EmailParser.php:220-223 | the slice is cut at every marker and each piece is trimmed |
| BodyParts.MergeChildren | src/EmailParser.php:224-228 | the loop concatenates the leaves of every chunk in order |
| BodyParts.Pieces | src/EmailParser.php:222 | at least one piece |
| BodyParts.Chunks | src/EmailParser.php:223 | one chunk per piece |
| BodyParts.EndIndexIsMinusTwo | src/EmailParser.php:221 | the end index is always -2 |
| BodyParts.SliceFormula | src/EmailParser.php:220-222 | the slice runs from the start index to the start index plus two before the end, and is empty when those cross |
| BodyParts.MarkedSlice | src/EmailParser.php:204 | for a body opening with its marker, the slice drops the marker and the last `|boundary|+4` characters |
| BodyParts.TerminatedSlice | src/EmailParser.php:220-222 | a body `--b` + inner + `--b--` is sliced to exactly the inner text |
| BodyParts.ChunksRejoin | src/EmailParser.php:222-223 | the pieces rejoin with the marker to the slice; no piece holds a marker; the chunks are the pieces trimmed |
| BodyParts.SliceBound | src/EmailParser.php:220-222 | a non-empty slice plus twice the boundary plus six characters fits in the body: two `--boundary` markers and two more characters lie outside it |
| BodyParts.BoundaryBound | src/EmailParser.php:218 | no boundary is longer than the header values |
| BodyParts.MarkedBodyBound | src/EmailParser.php:202-204 | a marked body is at most two characters longer than the text |
| BodyParts.ChunkBound | src/EmailParser.php:220-223 | every chunk of such a body is shorter than the text |
| BodyParts.EnvelopeWithBoundary | src/EmailParser.php:193-204 | text that names a boundary has headers, a non-empty boundary no longer than the text, and the marked body |
| BodyParts.ChunksShorter | src/EmailParser.php:224-227 | every recursive call receives a text strictly shorter than its own, so the recursion ends |
| BodyParts.PartsOfStructure | src/EmailParser.php:213-234 | empty body: no leaves; no boundary: one leaf `(headers, trim(body))`; a boundary: the flattened leaves of the chunks in order, read with the content type as the parent |
| BodyParts.BodyPartsStructure | src/EmailParser.php:191-235 | the same three cases for `getBodyParts` on any text; the one leaf holds the envelope body itself, which is already trimmed |
| BodyParts.ChildrenIsFlatten | src/EmailParser.php:224-229 | merging the chunks one by one is flattening the leaves of every chunk |
| BodyParts.FlattenMembers | src/EmailParser.php:227 | a merged leaf is a leaf of one of the chunks |
| BodyParts.ChildrenMembers | src/EmailParser.php:224-228 | a leaf is merged exactly when reading some chunk, with the content type as parent, yields it |
| BodyParts.BodyPartsWellFormed | src/EmailParser.php:191-235 | every leaf body is non-empty and equal to its own trim |
| BodyParts.PartsOfWellFormed | src/EmailParser.php:213-234 | the envelope's leaves are well formed |
| BodyParts.ChildrenWellFormed | src/EmailParser.php:224-228 | the children's leaves are well formed |
| BodyParts.EnvelopeBodyTrims | src/EmailParser.php:193-211 | a non-empty envelope body does not trim to nothing |
| BodyParts.MarkedBodyTrims | src/EmailParser.php:204 | a marked body does not trim to nothing |
| BodyParts.TextAfterBlankTrimmed | src/EmailParser.php:206 | the body after the blank line is trimmed |
| BodyParts.BoundaryTrimmed | src/EmailParser.php:198-200 | the boundary is trimmed |
| BodyParts.MarkedBodyTrimmed | src/EmailParser.php:204 | a marked body read with a trimmed boundary is its own trim |
| BodyParts.EnvelopeBodyTrimmed | src/EmailParser.php:193-211 | the body of every envelope is its own trim |
| BodyParts.BlankPieces | src/EmailParser.php:195-196 | pieces cut from whitespace trim to nothing |
| BodyParts.BlankSlice | src/EmailParser.php:195-196 | every slice of whitespace trims to nothing |
| BodyParts.BodyPartsOfBlank | src/EmailParser.php:213-214 | a text that trims to nothing has no leaves |
| BodyParts.BlankBlockFields | src/EmailParser.php:196 | an empty header block is read as one field with empty name and value |
| BodyParts.NamelessField | src/EmailParser.php:144-168 | a field without a name matches no non-empty name, so the lookup gives `('', {})` |
| BodyParts.NoBoundaryInBlankBlock | src/EmailParser.php:196-200 | an empty header block names no boundary |
| BodyParts.NonMultipartIsOneLeaf | src/EmailParser.php:208-211 | a non-empty part of a non-multipart type is one leaf without headers, holding its trimmed text |
| EmailParser.KindOfType | src/EmailParser.php:43-51 | a leaf is an attachment exactly when its content type is none of `text/plain`, `text/html` and `` |
| EmailParser.ContentId | src/EmailParser.php:55 | the id starts and ends with neither `<` nor `>` |
| EmailParser.BracketsTrimmed | src/EmailParser.php:55 | trimming `<` and `>` leaves neither at either end |
| EmailParser.Parse | src/EmailParser.php:23-76 | the method computes the reference result from the header lookups, the leaves, the classification and the rewriting |
| EmailParser.CollectLeaves | src/EmailParser.php:35-64 | the loop over the leaves computes the reference classification |
| EmailParser.ClassifyLeaf | src/EmailParser.php:42-63 | one leaf is classified by its content type |
| EmailParser.ClassifyText | src/EmailParser.php:43-50 | plain text and HTML overwrite; an untyped leaf fills only an empty text |
| EmailParser.ClassifyAttachment | src/EmailParser.php:51-62 | an attachment joins the inline list or the attachments |
| EmailParser.ReadAttachment | src/EmailParser.php:52-58 | the attachment fields, and whether the lower-cased Content-Disposition is exactly `inline` |
| EmailParser.RewriteInline | src/EmailParser.php:66-72 | the loop applies the inline attachments in order |
| EmailParser.Infos | src/EmailParser.php:41 | one reading per leaf |
| EmailParser.InfoAt | src/EmailParser.php:41-42 | reading i is the reading of leaf i |
| EmailParser.LastPlainTextWins | src/EmailParser.php:43-50 | the text is the decoded body of the last `text/plain` leaf, unless a later untyped leaf finds that text empty |
| EmailParser.TextKept | src/EmailParser.php:45-62 | HTML and attachment leaves never change the text |
| EmailParser.TextSettled | src/EmailParser.php:47-50 | once the text is set, only a `text/plain` leaf changes it |
| EmailParser.TextStaysEmpty | src/EmailParser.php:35-50 | before any `text/plain` leaf, and while untyped leaves decode to nothing, the text stays empty |
| EmailParser.FirstUntypedWins | src/EmailParser.php:47-50 | without `text/plain` leaves, the text is the first untyped body that decodes to something |
| EmailParser.NoTextLeaf | src/EmailParser.php:35 | without text leaves the text is empty |
| EmailParser.LastHtmlWins | src/EmailParser.php:45-46 | the HTML is the decoded body of the last `text/html` leaf |
| EmailParser.HtmlKept | src/EmailParser.php:43-62 | leaves that are not HTML never change the HTML |
| EmailParser.NoHtmlLeaf | src/EmailParser.php:36 | without an HTML leaf the HTML is empty |
| EmailParser.AttachmentsWhereSnoc | src/EmailParser.php:58-62 | the reference filter extends leaf by leaf |
| EmailParser.CollectedAttachments | src/EmailParser.php:51-62 | each non-text leaf becomes exactly one attachment; the inline ones and the others each keep leaf order |
| EmailParser.CollectAllAttachments | src/EmailParser.php:35-64 | the collected attachments are the non-inline attachment leaves; the inline list is the inline ones |
| EmailParser.ParsedAttachments | src/EmailParser.php:37-75 | the attachments `parse` returns are the non-inline attachment leaves of the message, in order |
| EmailParser.AttachmentShape | src/EmailParser.php:53-55 | content type non-empty and equal to the leaf's; name "" without a `name` parameter; id the Content-ID with `<`/`>` runs trimmed |
| EmailParser.RewriteOneAtStart | src/EmailParser.php:68 | a reference at position 0 suppresses the whole rewrite for that attachment |
| EmailParser.RewriteOneAbsent | src/EmailParser.php:68 | HTML without a reference is unchanged |
| EmailParser.RewriteOneReplaces | src/EmailParser.php:67-69 | otherwise the result is the HTML cut left to right at every `cid:` reference and rejoined with the `data:` URL; that leftmost, reference-free cut exists, and every such cut gives the same result |
| EmailParser.RewriteAllAppend | src/EmailParser.php:66-72 | the inline attachments are applied one after another |
| EmailParser.RewriteAllAnonymous | src/EmailParser.php:67 | attachments without an id rewrite nothing |
| EmailParser.MessageHeadersAreEnvelopeHeaders | src/EmailParser.php:26-27 | `parse` reads the same header fields as the top-level `getBodyParts`, which are the envelope headers when there is no boundary |

## Left out

- `autoload.php`: a class loader with no logic of its own.
- `strtotime` (lines 28-29): taken as the `parseDate` field of `Runtime`. It is a natural-language date parser in a foreign library.
- `decodeMIMEEncodedText` (lines 83-91): taken as the `mimeDecode` field. `imap_mime_header_decode` lives in the IMAP extension. The loop that concatenates its elements is part of that one abstract function.
- `base64_decode`, `base64_encode` and `quoted_printable_decode`: abstract fields of `Runtime`. Their lenient error handling belongs to the library.
- `mb_convert_encoding`: abstract.
- `mb_list_encodings`: a list given with the runtime.
- PCRE: only the two patterns the parser uses are written out, as scans.
- Address.ParseEmailAddressSpec: the characterisation is proved for input without a line feed only. `ParseEmailAddress` itself covers all input, matching segment by segment.
- HeaderLookup.Matches: PHP's loose `==` is taken as string equality. The query names the parser uses are never numeric strings.
- PHP arrays: option keys are plain strings. PHP would turn a numeric key into an integer, which is not observable here.
- Bytes: a string is a sequence of characters, one per byte. Strings are not decoded or normalised.
- Decomposition: some PHP functions are split into several methods, each covering a cited range of lines. Examples are `parse` (`Parse`, `CollectLeaves`, `ClassifyLeaf`, `ClassifyText`, `ClassifyAttachment`, `ReadAttachment`, `RewriteInline`) and `getBodyParts` (`GetBodyParts`, `ReadEnvelope`, `GetParts`, `ReadContentType`, `SplitAtBoundary`, `MergeChildren`). Together they execute the same statements in the same order.
- EmailParser.Parsed: the loop in lines 41-64 is modelled through `InfoOf`, which reads every field of a leaf. The methods decode a body only where the source does; since all functions are total, this does not change any result.
