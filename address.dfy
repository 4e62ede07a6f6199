/** Address extraction (`parseEmailAdress`): the pattern `(.*)<(.*)>` written as an
    explicit scan. `.` does not match a line feed, so the pattern is matched within
    the newline-free segments of the input. */
module Address {
  import opened Php

  /** The position of the last `c` in `s`. */
  function LastIndexOf(s: string, c: char): (r: Option<nat>)
    ensures r.Some? ==> r.value < |s| && s[r.value] == c
    ensures r.Some? ==> forall k :: r.value < k < |s| ==> s[k] != c
    ensures r.None? ==> forall k :: 0 <= k < |s| ==> s[k] != c
  {
    if |s| == 0 then None
    else if s[|s| - 1] == c then Some(|s| - 1)
    else
      var r := LastIndexOf(s[..|s| - 1], c);
      assert forall k :: 0 <= k < |s| - 1 ==> s[..|s| - 1][k] == s[k];
      r
  }

  /** The two capture groups: the text before `<`, and the text between it and `>`. */
  datatype Groups = Groups(name: string, address: string)

  /** The match within one newline-free segment: group 2 runs up to the last `>`, and
      group 1 (which is greedy and comes first) up to the last `<` before that `>`. */
  function MatchInLine(line: string): Option<Groups>
  {
    match LastIndexOf(line, '>')
    case None => None
    case Some(gt) =>
      match LastIndexOf(line[..gt], '<')
      case None => None
      case Some(lt) => Some(Groups(line[..lt], line[lt + 1..gt]))
  }

  /** The leftmost match: the first segment that matches. */
  function FirstMatch(lines: seq<string>): Option<Groups>
  {
    if lines == [] then None
    else if MatchInLine(lines[0]).Some? then MatchInLine(lines[0])
    else FirstMatch(lines[1..])
  }

  /** `preg_match("/(.*)\<(.*)\>/", $s, $matches)`: the groups, when the pattern matches. */
  function AddressMatch(s: string): Option<Groups>
  {
    FirstMatch(Explode("\n", s))
  }

  /** An address and its display name. */
  datatype Address = Address(address: string, name: string)

  /** Lines 175-183. `decode` stands for `decodeMIMEEncodedText`. When the pattern
      matches, the address is group 2 and the name is group 1 with whitespace, then
      quotes, then whitespace trimmed, decoded; otherwise the input is the address. */
  function ParseEmailAddress(decode: string -> string, s: string): (r: Address)
    ensures AddressMatch(s).None? ==> r == Address(s, "")
    ensures AddressMatch(s).Some? ==> r.address == AddressMatch(s).value.address
  {
    match AddressMatch(s)
    case Some(g) => Address(g.address, decode(Trim(TrimChars(Trim(g.name), Quotes))))
    case None => Address(s, "")
  }

  /** A `<` at `i` with a `>` at `j` after it. */
  predicate BracketPair(line: string, i: int, j: int)
  {
    0 <= i < j < |line| && line[i] == '<' && line[j] == '>'
  }

  /** `lt` is the last `<` before `gt`, and `gt` is the last `>`. */
  predicate GreedyPair(line: string, lt: int, gt: int)
  {
    BracketPair(line, lt, gt)
    && (forall k :: gt < k < |line| ==> line[k] != '>')
    && (forall k :: lt < k < gt ==> line[k] != '<')
  }

  /** The match within a segment exists exactly when some `<` has a `>` after it; its
      groups are cut at the greedy pair, and of all the ways to cut the segment at a
      `<` and a later `>` it takes the longest group 1, then the longest group 2. */
  lemma MatchInLineSpec(line: string)
    ensures MatchInLine(line).Some? <==> exists i, j :: BracketPair(line, i, j)
    ensures MatchInLine(line).Some? ==>
      exists lt, gt ::
        GreedyPair(line, lt, gt) && MatchInLine(line).value == Groups(line[..lt], line[lt + 1..gt])
    ensures MatchInLine(line).Some? ==> forall i, j :: BracketPair(line, i, j) ==>
      i <= |MatchInLine(line).value.name|
      && (i == |MatchInLine(line).value.name| ==> j - i - 1 <= |MatchInLine(line).value.address|)
  {
    match LastIndexOf(line, '>')
    case None =>
      assert forall i, j :: !BracketPair(line, i, j);
    case Some(gt) =>
      assert forall k :: 0 <= k < gt ==> line[..gt][k] == line[k];
      match LastIndexOf(line[..gt], '<')
      case None =>
        assert forall i, j :: !BracketPair(line, i, j);
      case Some(lt) =>
        assert GreedyPair(line, lt, gt);
        assert BracketPair(line, lt, gt);
        forall i, j | BracketPair(line, i, j)
          ensures i <= lt && (i == lt ==> j - i - 1 <= gt - lt - 1)
        {
          assert line[..gt][i] == line[i];
        }
  }

  /** The greedy pair of a segment is unique. */
  lemma GreedyPairUnique(line: string, lt: int, gt: int, lt': int, gt': int)
    requires GreedyPair(line, lt, gt) && GreedyPair(line, lt', gt')
    ensures lt == lt' && gt == gt'
  {
  }

  /** On input without a line feed the whole input is the one segment. */
  lemma AddressMatchSingleLine(s: string)
    requires '\n' !in s
    ensures AddressMatch(s) == MatchInLine(s)
  {
    assert Free(s, "\n") by {
      forall q | 0 <= q <= |s| ensures !OccursAt(s, "\n", q) {
        if q < |s| {
          assert s[q..q + 1] == [s[q]];
        }
      }
    }
    assert Explode("\n", s) == [s];
    assert [s][1..] == [];
    assert FirstMatch([s]) == MatchInLine(s);
  }

  /** The leftmost-match rule: a segment is consulted only when no earlier one matches. */
  lemma AddressMatchFirstLine(x: string, y: string)
    requires '\n' !in x
    ensures AddressMatch(x + "\n" + y) ==
      if MatchInLine(x).Some? then MatchInLine(x) else AddressMatch(y)
  {
    var s := x + "\n" + y;
    assert OccursAt(s, "\n", |x|) by {
      assert s[|x|..|x| + 1] == "\n";
    }
    assert forall q :: 0 <= q < |x| ==> !OccursAt(s, "\n", q) by {
      forall q | 0 <= q < |x| ensures !OccursAt(s, "\n", q) {
        assert s[q] == x[q];
        assert s[q..q + 1] == [s[q]];
      }
    }
    var p := StrPos(s, "\n").value;
    assert p == |x|;
    assert s[..p] == x;
    assert s[p + 1..] == y;
    assert Explode("\n", s) == [x] + Explode("\n", y);
  }

  /** Lines 178-182 on input without a line feed: with a `<` before a `>`, the address
      is the text strictly between the greedy pair and the name is the decoded,
      trimmed, unquoted text before it; without one, the result is `(s, "")`. */
  lemma ParseEmailAddressSpec(decode: string -> string, s: string)
    requires '\n' !in s
    ensures (forall i, j :: !BracketPair(s, i, j)) ==> ParseEmailAddress(decode, s) == Address(s, "")
    ensures (exists i, j :: BracketPair(s, i, j)) ==>
      exists lt, gt ::
        GreedyPair(s, lt, gt)
        && ParseEmailAddress(decode, s)
           == Address(s[lt + 1..gt], decode(Trim(TrimChars(Trim(s[..lt]), Quotes))))
  {
    AddressMatchSingleLine(s);
    MatchInLineSpec(s);
  }
}
