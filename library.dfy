/** The PHP library calls the parser depends on, passed in as values: their behaviour
    belongs to PHP's extensions, not to the parser. */
module Library {
  import opened Php

  datatype Runtime = Runtime(
    /** `decodeMIMEEncodedText` (lines 83-91): `imap_mime_header_decode`, with the
        texts of its elements concatenated. */
    mimeDecode: string -> string,
    /** `base64_decode` in its lenient mode, which never fails. */
    base64Decode: string -> string,
    /** `base64_encode`. */
    base64Encode: string -> string,
    /** `quoted_printable_decode`. */
    quotedPrintableDecode: string -> string,
    /** `mb_convert_encoding($text, 'UTF-8', $from)`, given `$text` and `$from`. */
    convertToUtf8: (string, string) -> string,
    /** `mb_list_encodings()`. */
    encodings: seq<string>,
    /** `strtotime`: a timestamp, or None where it returns false. */
    parseDate: string -> Option<int>
  )
}
