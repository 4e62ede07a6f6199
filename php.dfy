/** The few PHP string built-ins the parser relies on, with the PHP 7 semantics the
    parser depends on. A PHP string is a byte string; here each `char` stands for one byte. */
module Php {

  datatype Option<+T> = None | Some(value: T)

  /** The characters `trim()` strips when it is given no character list. */
  const Whitespace: set<char> := {' ', '\t', '\n', '\r', '\0', '\U{000B}'}
  /** The list in `trim($s, '"\'')`. */
  const Quotes: set<char> := {'"', '\''}
  /** The list in `trim($s, '<>')`. */
  const AngleBrackets: set<char> := {'<', '>'}

  /** `s` with every leading character of `cs` removed. */
  function TrimLeft(s: string, cs: set<char>): (r: string)
    ensures |r| <= |s|
  {
    if |s| > 0 && s[0] in cs then TrimLeft(s[1..], cs) else s
  }

  /** `s` with every trailing character of `cs` removed. */
  function TrimRight(s: string, cs: set<char>): (r: string)
    ensures |r| <= |s|
  {
    if |s| > 0 && s[|s| - 1] in cs then TrimRight(s[..|s| - 1], cs) else s
  }

  /** `trim($s, $cs)`: strips runs of characters of `cs` from both ends. */
  function TrimChars(s: string, cs: set<char>): (r: string)
    ensures |r| <= |s|
  {
    TrimRight(TrimLeft(s, cs), cs)
  }

  /** `trim($s)` with PHP's default character list. */
  function Trim(s: string): (r: string)
    ensures |r| <= |s|
  {
    TrimChars(s, Whitespace)
  }

  /** TrimLeft keeps a suffix whose first character is not in `cs` and removes only
      characters of `cs`. */
  lemma {:induction false} TrimLeftFacts(s: string, cs: set<char>)
    ensures TrimLeft(s, cs) == s[|s| - |TrimLeft(s, cs)|..]
    ensures TrimLeft(s, cs) == [] || TrimLeft(s, cs)[0] !in cs
    ensures forall k :: 0 <= k < |s| - |TrimLeft(s, cs)| ==> s[k] in cs
  {
    if |s| > 0 && s[0] in cs {
      TrimLeftFacts(s[1..], cs);
    }
  }

  /** TrimRight keeps a prefix whose last character is not in `cs` and removes only
      characters of `cs`. */
  lemma {:induction false} TrimRightFacts(s: string, cs: set<char>)
    ensures TrimRight(s, cs) == s[..|TrimRight(s, cs)|]
    ensures TrimRight(s, cs) == [] || TrimRight(s, cs)[|TrimRight(s, cs)| - 1] !in cs
    ensures forall k :: |TrimRight(s, cs)| <= k < |s| ==> s[k] in cs
  {
    if |s| > 0 && s[|s| - 1] in cs {
      TrimRightFacts(s[..|s| - 1], cs);
    }
  }

  /** A trimmed string neither starts nor ends with a character of the list. */
  lemma TrimCharsEnds(s: string, cs: set<char>)
    ensures TrimChars(s, cs) == [] || (TrimChars(s, cs)[0] !in cs && TrimChars(s, cs)[|TrimChars(s, cs)| - 1] !in cs)
  {
    var l := TrimLeft(s, cs);
    TrimLeftFacts(s, cs);
    TrimRightFacts(l, cs);
  }

  lemma {:induction false} TrimLeftId(s: string, cs: set<char>)
    requires s == [] || s[0] !in cs
    ensures TrimLeft(s, cs) == s
  {
  }

  lemma {:induction false} TrimRightId(s: string, cs: set<char>)
    requires s == [] || s[|s| - 1] !in cs
    ensures TrimRight(s, cs) == s
  {
  }

  /** A text that neither starts nor ends with whitespace is its own trim. */
  lemma TrimFixed(s: string)
    requires |s| > 0 && s[0] !in Whitespace && s[|s| - 1] !in Whitespace
    ensures Trim(s) == s
  {
    TrimLeftId(s, Whitespace);
    TrimRightId(s, Whitespace);
  }

  /** Trimming twice with the same list is trimming once. */
  lemma TrimCharsIdempotent(s: string, cs: set<char>)
    ensures TrimChars(TrimChars(s, cs), cs) == TrimChars(s, cs)
  {
    var t := TrimChars(s, cs);
    TrimCharsEnds(s, cs);
    TrimLeftId(t, cs);
    TrimRightId(t, cs);
  }

  lemma TrimIdempotent(s: string)
    ensures Trim(Trim(s)) == Trim(s)
  {
    TrimCharsIdempotent(s, Whitespace);
  }

  /** A string whose first character is not whitespace does not trim to nothing. */
  lemma {:induction false} TrimKeepsFirst(s: string)
    requires |s| > 0 && s[0] !in Whitespace
    ensures |Trim(s)| > 0
  {
    assert TrimLeft(s, Whitespace) == s;
    TrimRightFacts(s, Whitespace);
  }

  /** A string trims to nothing exactly when it is all whitespace. */
  lemma TrimEmpty(s: string)
    ensures Trim(s) == [] <==> forall k :: 0 <= k < |s| ==> s[k] in Whitespace
  {
    var l := TrimLeft(s, Whitespace);
    TrimLeftFacts(s, Whitespace);
    TrimRightFacts(l, Whitespace);
    assert |l| > 0 ==> l[0] == s[|s| - |l|];
    assert forall k :: |s| - |l| <= k < |s| ==> s[k] == l[k - (|s| - |l|)];
  }

  /** Trimming removes only characters of the list: any other character survives. */
  lemma {:induction false} TrimCharsKeeps(s: string, cs: set<char>, c: char)
    requires c !in cs
    ensures c in s <==> c in TrimChars(s, cs)
  {
    var l := TrimLeft(s, cs);
    var r := TrimRight(l, cs);
    TrimLeftFacts(s, cs);
    TrimRightFacts(l, cs);
    if c in s {
      var k :| 0 <= k < |s| && s[k] == c;
      assert k >= |s| - |l|;
      assert l[k - (|s| - |l|)] == c;
      assert k - (|s| - |l|) < |r|;
      assert r[k - (|s| - |l|)] == c;
    }
    if c in r {
      var k :| 0 <= k < |r| && r[k] == c;
      assert l[k] == c;
      assert s[k + |s| - |l|] == c;
    }
  }

  /** ASCII `strtolower` of one character. */
  function LowerChar(c: char): char
  {
    if 'A' <= c <= 'Z' then (c as int + 32) as char else c
  }

  /** ASCII `strtolower`. */
  function Lower(s: string): (r: string)
    ensures |r| == |s|
  {
    if s == [] then [] else [LowerChar(s[0])] + Lower(s[1..])
  }

  /** Lower-casing works character by character. */
  lemma {:induction false} LowerAt(s: string)
    ensures forall i :: 0 <= i < |s| ==> Lower(s)[i] == LowerChar(s[i])
  {
    if s != [] {
      LowerAt(s[1..]);
    }
  }

  /** A character that is not a letter is in the lower-cased text exactly when it is in
      the text. */
  lemma LowerKeeps(s: string, c: char)
    requires !('A' <= c <= 'Z') && !('a' <= c <= 'z')
    ensures c in Lower(s) <==> c in s
  {
    LowerAt(s);
    if c in Lower(s) {
      var i :| 0 <= i < |s| && Lower(s)[i] == c;
      assert s[i] == c;
    }
    if c in s {
      var i :| 0 <= i < |s| && s[i] == c;
      assert Lower(s)[i] == c;
    }
  }

  lemma LowerIdempotent(s: string)
    ensures Lower(Lower(s)) == Lower(s)
  {
    LowerAt(s);
    LowerAt(Lower(s));
  }

  predicate IsAsciiAlnum(c: char)
  {
    'a' <= c <= 'z' || 'A' <= c <= 'Z' || '0' <= c <= '9'
  }

  /** `needle` occurs in `haystack` at index `p`. */
  predicate OccursAt(haystack: string, needle: string, p: int)
  {
    0 <= p && p + |needle| <= |haystack| && haystack[p..p + |needle|] == needle
  }

  function StrPosFrom(haystack: string, needle: string, from: nat): (r: Option<nat>)
    requires |needle| > 0
    ensures r.Some? ==> from <= r.value && OccursAt(haystack, needle, r.value)
    ensures r.Some? ==> forall q :: from <= q < r.value ==> !OccursAt(haystack, needle, q)
    ensures r.None? ==> forall q :: from <= q ==> !OccursAt(haystack, needle, q)
    decreases |haystack| - from
  {
    if from + |needle| > |haystack| then None
    else if haystack[from..from + |needle|] == needle then Some(from)
    else StrPosFrom(haystack, needle, from + 1)
  }

  /** `strpos($haystack, $needle)`: the first occurrence, `None` for PHP's `false`.
      An empty needle gives `false`, as in PHP 7. */
  function StrPos(haystack: string, needle: string): (r: Option<nat>)
    ensures r.Some? ==> |needle| > 0 && OccursAt(haystack, needle, r.value)
    ensures r.Some? ==> forall q :: 0 <= q < r.value ==> !OccursAt(haystack, needle, q)
    ensures r.None? && |needle| > 0 ==> forall q :: !OccursAt(haystack, needle, q)
  {
    if |needle| == 0 then None else StrPosFrom(haystack, needle, 0)
  }

  /** PHP arithmetic on a `strpos` result: `false` counts as 0. */
  function FalseAsZero(r: Option<nat>): int
  {
    match r
    case Some(p) => p
    case None => 0
  }

  /** A string used where `false` may stand for it: `false` reads as "". */
  function FalseAsEmpty(r: Option<string>): string
  {
    match r
    case Some(s) => s
    case None => ""
  }

  lemma StrPosAtStart(haystack: string, needle: string)
    requires |needle| > 0 && |needle| <= |haystack| && haystack[..|needle|] == needle
    ensures StrPos(haystack, needle) == Some(0)
  {
    assert OccursAt(haystack, needle, 0);
  }

  /** A needle longer than the haystack is never found. */
  lemma StrPosTooLong(haystack: string, needle: string)
    requires |needle| > |haystack|
    ensures StrPos(haystack, needle) == None
  {
  }

  /** `implode($sep, $pieces)`. */
  function Join(sep: string, pieces: seq<string>): string
  {
    if |pieces| == 0 then ""
    else if |pieces| == 1 then pieces[0]
    else pieces[0] + sep + Join(sep, pieces[1..])
  }

  lemma {:induction false} JoinSnoc(sep: string, pieces: seq<string>, x: string)
    requires |pieces| > 0
    ensures Join(sep, pieces + [x]) == Join(sep, pieces) + sep + x
  {
    if |pieces| > 1 {
      assert (pieces + [x])[1..] == pieces[1..] + [x];
      JoinSnoc(sep, pieces[1..], x);
    }
  }

  /** No element of a joined sequence is longer than the joined string. */
  lemma {:induction false} JoinPieceBound(sep: string, pieces: seq<string>)
    ensures forall i :: 0 <= i < |pieces| ==> |pieces[i]| <= |Join(sep, pieces)|
  {
    if |pieces| > 1 {
      JoinPieceBound(sep, pieces[1..]);
      assert forall i :: 1 <= i < |pieces| ==> pieces[i] == pieces[1..][i - 1];
    }
  }

  /** No occurrence of `sep` starts inside `s`. */
  predicate Free(s: string, sep: string)
  {
    forall q :: 0 <= q <= |s| ==> !OccursAt(s, sep, q)
  }

  /** A one-character separator is absent exactly when the character is. */
  lemma FreeChar(s: string, c: char)
    ensures Free(s, [c]) <==> c !in s
  {
    if c in s {
      var q :| 0 <= q < |s| && s[q] == c;
      assert s[q..q + 1] == [c];
      assert OccursAt(s, [c], q);
    }
    if !Free(s, [c]) {
      var q :| 0 <= q <= |s| && OccursAt(s, [c], q);
      assert s[q] == s[q..q + 1][0];
    }
  }

  /** `explode($sep, $s)`: a left-to-right split at non-overlapping occurrences. */
  function Explode(sep: string, s: string): (r: seq<string>)
    requires |sep| > 0
    ensures |r| > 0
    decreases |s|
  {
    match StrPos(s, sep)
    case None => [s]
    case Some(p) => [s[..p]] + Explode(sep, s[p + |sep|..])
  }

  /** `explode($sep, $s, 2)`: split at the first occurrence only. */
  function Explode2(sep: string, s: string): (r: seq<string>)
    requires |sep| > 0
    ensures 1 <= |r| <= 2
  {
    match StrPos(s, sep)
    case None => [s]
    case Some(p) => [s[..p], s[p + |sep|..]]
  }

  /** The text before the first occurrence of `sep` holds no occurrence of it. */
  lemma PrefixFree(s: string, sep: string, p: nat)
    requires StrPos(s, sep) == Some(p)
    ensures Free(s[..p], sep)
  {
    var head := s[..p];
    forall q | 0 <= q <= |head| && OccursAt(head, sep, q) ensures false {
      assert s[q..q + |sep|] == head[q..q + |sep|];
      assert OccursAt(s, sep, q);
    }
  }

  /** The pieces of an explode rejoin, with the separator, to the exploded string, and no
      piece holds the separator. */
  lemma {:induction false} ExplodeJoin(sep: string, s: string)
    requires |sep| > 0
    ensures Join(sep, Explode(sep, s)) == s
    ensures forall i :: 0 <= i < |Explode(sep, s)| ==> Free(Explode(sep, s)[i], sep)
    decreases |s|
  {
    match StrPos(s, sep)
    case None =>
    case Some(p) =>
      var rest := s[p + |sep|..];
      ExplodeJoin(sep, rest);
      PrefixFree(s, sep, p);
      assert s == s[..p] + sep + rest;
      assert Explode(sep, s) == [s[..p]] + Explode(sep, rest);
  }

  /** Every cut is at the first occurrence of `sep` after the previous one: no
      occurrence starts inside a piece and runs into the separator that follows it. */
  predicate Leftmost(pieces: seq<string>, sep: string)
  {
    forall i, q :: 0 <= i < |pieces| - 1 && 0 <= q < |pieces[i]| ==> !OccursAt(pieces[i] + sep, sep, q)
  }

  /** `explode` cuts left to right at the first occurrence each time. */
  lemma {:induction false} ExplodeLeftmost(sep: string, s: string)
    requires |sep| > 0
    ensures Leftmost(Explode(sep, s), sep)
    decreases |s|
  {
    match StrPos(s, sep)
    case None =>
    case Some(p) =>
      var rest := s[p + |sep|..];
      ExplodeLeftmost(sep, rest);
      var pieces := Explode(sep, s);
      assert pieces == [s[..p]] + Explode(sep, rest);
      forall i, q | 0 <= i < |pieces| - 1 && 0 <= q < |pieces[i]|
        ensures !OccursAt(pieces[i] + sep, sep, q)
      {
        if i == 0 {
          FirstPieceLeftmost(sep, s, p, q);
        } else {
          assert pieces[i] == Explode(sep, rest)[i - 1];
        }
      }
  }

  /** No occurrence starts inside the piece before the first one. */
  lemma FirstPieceLeftmost(sep: string, s: string, p: nat, q: nat)
    requires |sep| > 0 && StrPos(s, sep) == Some(p) && q < p
    ensures !OccursAt(s[..p] + sep, sep, q)
  {
    assert !OccursAt(s, sep, q);
    assert s[..p] + sep == s[..p + |sep|];
    assert (s[..p] + sep)[q..q + |sep|] == s[q..q + |sep|];
  }

  /** A cut that rejoins to `s`, has no separator inside a piece, and is leftmost is
      the one `explode` makes. */
  lemma {:induction false} ExplodeUnique(sep: string, s: string, pieces: seq<string>)
    requires |sep| > 0 && |pieces| > 0
    requires Join(sep, pieces) == s
    requires forall i :: 0 <= i < |pieces| ==> Free(pieces[i], sep)
    requires Leftmost(pieces, sep)
    ensures pieces == Explode(sep, s)
    decreases |pieces|
  {
    if |pieces| == 1 {
      assert StrPos(s, sep).None?;
    } else {
      var rest := Join(sep, pieces[1..]);
      FirstCut(pieces[0], sep, rest);
      LeftmostTail(pieces, sep);
      ExplodeUnique(sep, rest, pieces[1..]);
      assert pieces == [pieces[0]] + pieces[1..];
    }
  }

  /** When no occurrence starts inside `x`, the first one in `x + sep + y` follows `x`. */
  lemma FirstCut(x: string, sep: string, y: string)
    requires |sep| > 0
    requires forall q :: 0 <= q < |x| ==> !OccursAt(x + sep, sep, q)
    ensures StrPos(x + sep + y, sep) == Some(|x|)
    ensures (x + sep + y)[..|x|] == x && (x + sep + y)[|x| + |sep|..] == y
  {
    var s := x + sep + y;
    var p := |x|;
    assert s[p..p + |sep|] == sep;
    assert OccursAt(s, sep, p);
    forall q | 0 <= q < p ensures !OccursAt(s, sep, q) {
      if OccursAt(s, sep, q) {
        assert (x + sep)[q..q + |sep|] == s[q..q + |sep|];
        assert OccursAt(x + sep, sep, q);
      }
    }
  }

  /** A leftmost cut stays leftmost without its first piece. */
  lemma LeftmostTail(pieces: seq<string>, sep: string)
    requires |pieces| > 0 && Leftmost(pieces, sep)
    ensures Leftmost(pieces[1..], sep)
  {
    var tail := pieces[1..];
    forall i, q | 0 <= i < |tail| - 1 && 0 <= q < |tail[i]|
      ensures !OccursAt(tail[i] + sep, sep, q)
    {
      assert tail[i] == pieces[i + 1];
    }
  }

  /** The same for an explode with limit 2; it splits in two exactly when `sep` occurs. */
  lemma Explode2Join(sep: string, s: string)
    requires |sep| > 0
    ensures Join(sep, Explode2(sep, s)) == s
    ensures Free(Explode2(sep, s)[0], sep)
    ensures |Explode2(sep, s)| == 1 <==> Free(s, sep)
  {
    match StrPos(s, sep)
    case None =>
    case Some(p) =>
      PrefixFree(s, sep, p);
      assert s == s[..p] + sep + s[p + |sep|..];
  }

  /** The limit-2 explode cuts at the first occurrence. */
  lemma Explode2Leftmost(sep: string, s: string)
    requires |sep| > 0
    ensures Leftmost(Explode2(sep, s), sep)
  {
    match StrPos(s, sep)
    case None =>
    case Some(p) =>
      var pieces := Explode2(sep, s);
      forall i, q | 0 <= i < |pieces| - 1 && 0 <= q < |pieces[i]|
        ensures !OccursAt(pieces[i] + sep, sep, q)
      {
        assert s[..p] + sep == s[..p + |sep|];
        if OccursAt(pieces[i] + sep, sep, q) {
          assert s[q..q + |sep|] == (s[..p] + sep)[q..q + |sep|];
          assert OccursAt(s, sep, q);
        }
      }
  }

  /** Every piece of an explode is a part of the exploded string. */
  lemma ExplodeBound(sep: string, s: string)
    requires |sep| > 0
    ensures forall i :: 0 <= i < |Explode(sep, s)| ==> |Explode(sep, s)[i]| <= |s|
    ensures forall i :: 0 <= i < |Explode2(sep, s)| ==> |Explode2(sep, s)[i]| <= |s|
  {
    ExplodeJoin(sep, s);
    Explode2Join(sep, s);
    JoinPieceBound(sep, Explode(sep, s));
    JoinPieceBound(sep, Explode2(sep, s));
  }

  /** `substr($s, $start, $length)` of PHP 7; `None` for its `false`. A negative start
      counts from the end; with a negative start, a negative length that reaches back
      before the start gives "" rather than `false`, unless it exceeds the whole text. */
  function Substr(s: string, start: int, length: int): (r: Option<string>)
    ensures start > |s| ==> r.None?
    ensures 0 <= start <= |s| && length < 0 ==>
      r == (if -length > |s| - start then None else Some(s[start..|s| + length]))
    ensures 0 <= start <= |s| && length >= 0 ==>
      r == Some(s[start..if start + length <= |s| then start + length else |s|])
    ensures start < 0 && length < 0 ==> (r.None? <==> -length > |s|)
  {
    if start > |s| then None
    else
      var f := if start >= 0 then start else if -start > |s| then 0 else |s| + start;
      if length < 0 then
        if -length > |s| - f then
          if start < 0 && -length <= |s| then Some("") else None
        else Some(s[f..|s| + length])
      else
        Some(s[f..if f + length <= |s| then f + length else |s|])
  }

  /** `str_replace($needle, $replacement, $s)` for one needle: every non-overlapping
      occurrence, scanned left to right, is replaced. */
  function ReplaceAll(s: string, needle: string, replacement: string): (r: string)
    requires |needle| > 0
    ensures StrPos(s, needle).None? ==> r == s
  {
    ExplodeJoin(needle, s);
    Join(replacement, Explode(needle, s))
  }
}
