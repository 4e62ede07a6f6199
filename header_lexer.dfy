/** Header lexing (`parseHeaders`): the raw header block becomes an ordered list of
    (name, value) fields. Folded continuation lines are joined to the field before them. */
module HeaderLexer {
  import opened Php

  datatype Header = Header(name: string, value: string)

  const CRLF: string := "\r\n"

  /** A line that begins with an ASCII letter or digit begins a new field
      (`/^[a-zA-Z0-9]/`); any other line continues the previous one. */
  predicate StartsField(line: string)
  {
    |line| > 0 && IsAsciiAlnum(line[0])
  }

  /** The lines of a header block: the block trimmed, then split at CRLF. */
  function Lines(block: string): (lines: seq<string>)
    ensures |lines| > 0
  {
    Explode(CRLF, Trim(block))
  }

  /** The logical lines that the first loop of `parseHeaders` holds once it has read
      `lines`: a field line is appended, a continuation is added to the last entry
      after one space, and a continuation with nothing before it becomes an entry. */
  function Unfolded(lines: seq<string>): seq<string>
  {
    if lines == [] then [] else UnfoldStep(Unfolded(lines[..|lines| - 1]), lines[|lines| - 1])
  }

  /** What the first loop of `parseHeaders` does with one line. */
  function UnfoldStep(prev: seq<string>, line: string): seq<string>
  {
    if StartsField(line) || prev == [] then prev + [Trim(line)]
    else prev[|prev| - 1 := prev[|prev| - 1] + " " + Trim(line)]
  }

  /** Reference reading of the unfolding, from the top: `current` is the field being
      read; a field line closes it and opens the next, a continuation line is appended
      to it after one space. */
  function Grouped(current: string, lines: seq<string>): (r: seq<string>)
    ensures |r| > 0
    decreases |lines|
  {
    if lines == [] then [current]
    else if StartsField(lines[0]) then [current] + Grouped(Trim(lines[0]), lines[1..])
    else Grouped(current + " " + Trim(lines[0]), lines[1..])
  }

  /** The first line opens the first field whatever it starts with. */
  function LogicalFields(lines: seq<string>): (r: seq<string>)
    ensures |r| == 0 <==> |lines| == 0
  {
    if lines == [] then [] else Grouped(Trim(lines[0]), lines[1..])
  }

  /** Line 115-116: a logical line split at its first colon, both sides trimmed. */
  function SplitField(line: string): Header
  {
    var parts := Explode2(":", line);
    Header(Trim(parts[0]), if |parts| == 2 then Trim(parts[1]) else "")
  }

  /** The name is the trimmed text before the first colon, and holds no colon; the value
      is the trimmed text after it, or empty when the line has no colon. */
  lemma SplitFieldFacts(line: string)
    ensures ':' !in SplitField(line).name
    ensures Trim(SplitField(line).name) == SplitField(line).name
    ensures Trim(SplitField(line).value) == SplitField(line).value
    ensures |SplitField(line).value| <= |line|
    ensures match StrPos(line, ":")
            case None => SplitField(line) == Header(Trim(line), "")
            case Some(p) => SplitField(line) == Header(Trim(line[..p]), Trim(line[p + 1..]))
  {
    var parts := Explode2(":", line);
    Explode2Join(":", line);
    ExplodeBound(":", line);
    assert ':' !in parts[0] by {
      if ':' in parts[0] {
        var q :| 0 <= q < |parts[0]| && parts[0][q] == ':';
        assert parts[0][q..q + 1] == ":";
        assert OccursAt(parts[0], ":", q);
      }
    }
    TrimCharsKeeps(parts[0], Whitespace, ':');
    TrimIdempotent(parts[0]);
    if |parts| == 2 {
      TrimIdempotent(parts[1]);
    }
  }

  /** `parseHeaders($block)` as a value. */
  function HeaderFields(block: string): seq<Header>
  {
    var u := Unfolded(Lines(block));
    seq(|u|, i requires 0 <= i < |u| => SplitField(u[i]))
  }

  /** Lines 98-119. */
  method ParseHeaders(block: string) returns (headers: seq<Header>)
    ensures headers == HeaderFields(block)
  {
    var lines := Explode(CRLF, Trim(block));
    var temp: seq<string> := [];
    var i := 0;
    while i < |lines|
      invariant 0 <= i <= |lines|
      invariant temp == Unfolded(lines[..i])
    {
      var line := lines[i];
      assert lines[..i + 1][..i] == lines[..i];
      assert Unfolded(lines[..i + 1]) == UnfoldStep(temp, line);
      if StartsField(line) {
        temp := temp + [Trim(line)];
      } else if |temp| > 0 {
        temp := temp[|temp| - 1 := temp[|temp| - 1] + " " + Trim(line)];
      } else {
        temp := temp + [Trim(line)];
      }
      i := i + 1;
    }
    assert lines[..i] == lines;
    headers := [];
    var j := 0;
    while j < |temp|
      invariant 0 <= j <= |temp|
      invariant |headers| == j
      invariant forall k :: 0 <= k < j ==> headers[k] == SplitField(temp[k])
    {
      headers := headers + [SplitField(temp[j])];
      j := j + 1;
    }
  }

  /** Reading one more line extends the reference fields as the loop of `parseHeaders`
      extends its list. */
  lemma {:induction false} GroupedSnoc(current: string, lines: seq<string>, x: string)
    ensures Grouped(current, lines + [x]) == UnfoldStep(Grouped(current, lines), x)
    decreases |lines|
  {
    if lines == [] {
      assert lines + [x] == [x];
      assert [x][1..] == [];
    } else {
      var y := lines[0];
      assert (lines + [x])[1..] == lines[1..] + [x];
      if StartsField(y) {
        var g := Grouped(Trim(y), lines[1..]);
        GroupedSnoc(Trim(y), lines[1..], x);
        if StartsField(x) {
          assert [current] + (g + [Trim(x)]) == ([current] + g) + [Trim(x)];
        } else {
          assert [current] + g[|g| - 1 := g[|g| - 1] + " " + Trim(x)]
              == ([current] + g)[|g| := g[|g| - 1] + " " + Trim(x)];
        }
      } else {
        GroupedSnoc(current + " " + Trim(y), lines[1..], x);
      }
    }
  }

  lemma LogicalFieldsSnoc(lines: seq<string>, x: string)
    ensures LogicalFields(lines + [x]) == UnfoldStep(LogicalFields(lines), x)
  {
    if lines == [] {
      assert lines + [x] == [x];
      assert [x][1..] == [];
    } else {
      assert (lines + [x])[0] == lines[0];
      assert (lines + [x])[1..] == lines[1..] + [x];
      GroupedSnoc(Trim(lines[0]), lines[1..], x);
    }
  }

  /** The loop of `parseHeaders` computes exactly the field-by-field reading. */
  lemma {:induction false} UnfoldedIsLogicalFields(lines: seq<string>)
    ensures Unfolded(lines) == LogicalFields(lines)
    decreases |lines|
  {
    if lines != [] {
      var init := lines[..|lines| - 1];
      assert lines == init + [lines[|lines| - 1]];
      UnfoldedIsLogicalFields(init);
      LogicalFieldsSnoc(init, lines[|lines| - 1]);
    }
  }

  /** The number of field lines. */
  function CountStarts(lines: seq<string>): nat
  {
    if lines == [] then 0
    else CountStarts(lines[..|lines| - 1]) + if StartsField(lines[|lines| - 1]) then 1 else 0
  }

  /** One field per line that starts with a letter or digit, plus one more when the
      first line does not. */
  lemma {:induction false} UnfoldedCount(lines: seq<string>)
    ensures |Unfolded(lines)| ==
      CountStarts(lines) + if lines != [] && !StartsField(lines[0]) then 1 else 0
    decreases |lines|
  {
    if lines != [] {
      var init := lines[..|lines| - 1];
      UnfoldedCount(init);
      if init != [] {
        assert init[0] == lines[0];
        UnfoldedIsLogicalFields(init);
      }
    }
  }

  /** A field line followed by a continuation line makes one field, joined by one space. */
  lemma FoldedPair(first: string, continuation: string)
    requires StartsField(first) && !StartsField(continuation)
    ensures Unfolded([first, continuation]) == [Trim(first) + " " + Trim(continuation)]
  {
    assert [first, continuation][..1] == [first];
    assert [first][..0] == [];
    assert Unfolded([first]) == [Trim(first)];
  }

  /** No logical line is longer than the text it was read from. */
  lemma {:induction false} UnfoldedBound(lines: seq<string>)
    ensures forall i :: 0 <= i < |Unfolded(lines)| ==> |Unfolded(lines)[i]| <= |Join(CRLF, lines)|
    decreases |lines|
  {
    if lines != [] {
      var init := lines[..|lines| - 1];
      var x := lines[|lines| - 1];
      assert lines == init + [x];
      UnfoldedBound(init);
      if init != [] {
        JoinSnoc(CRLF, init, x);
      }
    }
  }

  /** The header block always yields at least one field, each the split of one logical
      line, in the order of the lines. */
  lemma HeaderFieldsShape(block: string)
    ensures |HeaderFields(block)| == |LogicalFields(Lines(block))| > 0
    ensures forall i :: 0 <= i < |HeaderFields(block)| ==>
      HeaderFields(block)[i] == SplitField(LogicalFields(Lines(block))[i])
  {
    UnfoldedIsLogicalFields(Lines(block));
  }

  /** No header value is longer than the header block. */
  lemma HeaderValueBound(block: string)
    ensures forall i :: 0 <= i < |HeaderFields(block)| ==> |HeaderFields(block)[i].value| <= |block|
  {
    var lines := Lines(block);
    UnfoldedBound(lines);
    ExplodeJoin(CRLF, Trim(block));
    forall i | 0 <= i < |HeaderFields(block)|
      ensures |HeaderFields(block)[i].value| <= |block|
    {
      SplitFieldFacts(Unfolded(lines)[i]);
    }
  }
}
