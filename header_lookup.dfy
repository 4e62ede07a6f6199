/** Header lookup (`getHeaderValue`) and the parsing of a header value into its primary
    value and its `;key=value` parameters (`getHeaderValueAndOptions`), in the manner of
    section 5.1 of RFC 2045. */
module HeaderLookup {
  import opened Php
  import opened HeaderLexer

  /** Line 131: a header answers a query when the lower-cased names are equal. (PHP's
      loose `==` agrees with string equality here, since every name the parser asks
      for is non-numeric.) */
  predicate Matches(h: Header, name: string)
  {
    Lower(h.name) == Lower(name)
  }

  /** Header `i` is the first one that answers `name`. */
  predicate IsFirstMatch(headers: seq<Header>, name: string, i: int)
  {
    0 <= i < |headers| && Matches(headers[i], name)
    && forall j :: 0 <= j < i ==> !Matches(headers[j], name)
  }

  predicate NoMatch(headers: seq<Header>, name: string)
  {
    forall j :: 0 <= j < |headers| ==> !Matches(headers[j], name)
  }

  /** Lines 127-136: the value of the first header whose name matches, or "". */
  function HeaderValue(headers: seq<Header>, name: string): (v: string)
    ensures NoMatch(headers, name) ==> v == ""
    ensures forall i :: IsFirstMatch(headers, name, i) ==> v == headers[i].value
  {
    if headers == [] then ""
    else if Matches(headers[0], name) then headers[0].value
    else
      var v := HeaderValue(headers[1..], name);
      assert forall i :: IsFirstMatch(headers, name, i) ==> IsFirstMatch(headers[1..], name, i - 1);
      v
  }

  /** Headers after the first match are never consulted. */
  lemma HeaderValueFirstWins(front: seq<Header>, back: seq<Header>, name: string)
    ensures !NoMatch(front, name) ==> HeaderValue(front + back, name) == HeaderValue(front, name)
    ensures NoMatch(front, name) ==> HeaderValue(front + back, name) == HeaderValue(back, name)
  {
    if !NoMatch(front, name) {
      var i := FirstMatchIndex(front, name);
      assert IsFirstMatch(front + back, name, i);
    } else if !NoMatch(back, name) {
      var i := FirstMatchIndex(back, name);
      assert IsFirstMatch(front + back, name, |front| + i);
    } else {
      assert NoMatch(front + back, name);
    }
  }

  /** The index of the first match; there is one unless NoMatch. */
  function FirstMatchIndex(headers: seq<Header>, name: string): (i: nat)
    requires !NoMatch(headers, name)
    ensures IsFirstMatch(headers, name, i)
  {
    if Matches(headers[0], name) then 0
    else
      var i := FirstMatchIndex(headers[1..], name);
      assert headers[1..][i] == headers[i + 1];
      i + 1
  }

  /** The primary value of a header and its parameters, keyed by lower-cased name. */
  datatype ValueAndOptions = ValueAndOptions(value: string, options: map<string, string>)

  /** Lines 155-161: one `;` segment after the first. A segment that is empty after
      trimming, or that has no `=`, defines nothing; otherwise the key is the trimmed
      and lower-cased text before the first `=` and the value the text after it with
      whitespace, then quotes, then whitespace stripped from both ends. */
  function Parameter(part: string): Option<(string, string)>
  {
    var t := Trim(part);
    if |t| == 0 then None
    else
      var kv := Explode2("=", t);
      if |kv| == 2 then Some((Lower(Trim(kv[0])), Trim(TrimChars(Trim(kv[1]), Quotes))))
      else None
  }

  /** The parameter each segment defines, in order. */
  function Parameters(segments: seq<string>): (ps: seq<Option<(string, string)>>)
    ensures |ps| == |segments|
  {
    seq(|segments|, i requires 0 <= i < |segments| => Parameter(segments[i]))
  }

  /** The options that the loop at lines 154-162 has collected after reading the
      parameters `ps`: a later definition overwrites an earlier one of the same key. */
  function OptionsOf(ps: seq<Option<(string, string)>>): map<string, string>
  {
    if ps == [] then map[] else WithParameter(OptionsOf(ps[..|ps| - 1]), ps[|ps| - 1])
  }

  /** One parameter read into the options (line 159); a segment that defines none
      leaves them alone. */
  function WithParameter(m: map<string, string>, p: Option<(string, string)>): map<string, string>
  {
    match p
    case None => m
    case Some(kv) => m[kv.0 := kv.1]
  }

  /** Lines 149-164 for a header value `raw`. */
  function ParseValue(raw: string): ValueAndOptions
  {
    var parts := Explode(";", Trim(raw));
    ValueAndOptions(Trim(parts[0]), OptionsOf(Parameters(parts[1..])))
  }

  /** `getHeaderValueAndOptions($headers, $name)` as a value. */
  function HeaderValueAndOptions(headers: seq<Header>, name: string): ValueAndOptions
  {
    if headers == [] then ValueAndOptions("", map[])
    else if Matches(headers[0], name) then ParseValue(headers[0].value)
    else HeaderValueAndOptions(headers[1..], name)
  }

  /** Lines 144-148 and 164-167: the search for the first matching header. */
  method GetHeaderValueAndOptions(headers: seq<Header>, name: string) returns (r: ValueAndOptions)
    ensures r == HeaderValueAndOptions(headers, name)
  {
    var lname := Lower(name);
    var i := 0;
    while i < |headers|
      invariant 0 <= i <= |headers|
      invariant HeaderValueAndOptions(headers[i..], name) == HeaderValueAndOptions(headers, name)
    {
      assert headers[i..][1..] == headers[i + 1..];
      if Lower(headers[i].name) == lname {
        r := ParseHeaderValue(headers[i].value);
        return;
      }
      i := i + 1;
    }
    return ValueAndOptions("", map[]);
  }

  /** Lines 149-164: the value and the options of one header. */
  method ParseHeaderValue(raw: string) returns (r: ValueAndOptions)
    ensures r == ParseValue(raw)
  {
    var parts := Explode(";", Trim(raw));
    var value := Trim(parts[0]);
    var options: map<string, string> := map[];
    var k := 1;
    while k < |parts|
      invariant 1 <= k <= |parts|
      invariant options == OptionsOf(Parameters(parts[1..k]))
    {
      ParametersSnoc(parts, k);
      options := ReadOption(options, parts[k]);
      k := k + 1;
    }
    assert parts[1..k] == parts[1..];
    return ValueAndOptions(value, options);
  }

  /** Lines 155-160: one segment read into the options. */
  method ReadOption(options: map<string, string>, segment: string) returns (r: map<string, string>)
    ensures r == WithParameter(options, Parameter(segment))
  {
    r := options;
    var part := Trim(segment);
    if |part| > 0 {
      var optionParts := Explode2("=", part);
      if |optionParts| == 2 {
        r := r[Lower(Trim(optionParts[0])) := Trim(TrimChars(Trim(optionParts[1]), Quotes))];
      }
    }
  }

  /** Reading segment `k` extends the options read from the segments before it. */
  lemma ParametersSnoc(parts: seq<string>, k: nat)
    requires 1 <= k < |parts|
    ensures OptionsOf(Parameters(parts[1..k + 1])) == WithParameter(OptionsOf(Parameters(parts[1..k])), Parameter(parts[k]))
  {
    var ps := Parameters(parts[1..k]);
    assert Parameters(parts[1..k + 1]) == ps + [Parameter(parts[k])];
    assert (ps + [Parameter(parts[k])])[..|ps|] == ps;
  }

  /** Both lookups read the same header: the options version is the parse of the
      plain value; when no header matches, both give their empty result. */
  lemma {:induction false} HeaderValueAndOptionsIsParseOfValue(headers: seq<Header>, name: string)
    ensures HeaderValueAndOptions(headers, name) == ParseValue(HeaderValue(headers, name))
  {
    if headers == [] {
      ParseValueEmpty();
    } else if !Matches(headers[0], name) {
      HeaderValueAndOptionsIsParseOfValue(headers[1..], name);
    }
  }

  lemma ParseValueEmpty()
    ensures ParseValue("") == ValueAndOptions("", map[])
  {
    assert Trim("") == "";
    assert StrPos("", ";") == None;
    assert Explode(";", "") == [""];
  }

  /** Parameter `j` defines key `k`. */
  predicate Defines(ps: seq<Option<(string, string)>>, j: int, k: string)
  {
    0 <= j < |ps| && ps[j].Some? && ps[j].value.0 == k
  }

  /** Parameter `j` is the last definition of its key. */
  predicate LastDefinition(ps: seq<Option<(string, string)>>, j: int)
  {
    0 <= j < |ps| && ps[j].Some?
    && forall j' :: j < j' < |ps| ==> !Defines(ps, j', ps[j].value.0)
  }

  /** Every key present was defined by some parameter. */
  lemma {:induction false} OptionsKeysDefined(ps: seq<Option<(string, string)>>)
    ensures forall k :: k in OptionsOf(ps) ==> exists j :: Defines(ps, j, k)
    decreases |ps|
  {
    if ps != [] {
      var n := |ps| - 1;
      var init := ps[..n];
      OptionsKeysDefined(init);
      forall k | k in OptionsOf(ps) ensures exists j :: Defines(ps, j, k) {
        if !Defines(ps, n, k) {
          assert k in OptionsOf(init);
          var j :| Defines(init, j, k);
          assert Defines(ps, j, k);
        }
      }
    }
  }

  /** Every key holds the value of its last definition: later segments win. */
  lemma {:induction false} OptionsLastWins(ps: seq<Option<(string, string)>>)
    ensures forall j :: LastDefinition(ps, j) ==>
      ps[j].value.0 in OptionsOf(ps) && OptionsOf(ps)[ps[j].value.0] == ps[j].value.1
    decreases |ps|
  {
    if ps != [] {
      var n := |ps| - 1;
      var init := ps[..n];
      OptionsLastWins(init);
      forall j | LastDefinition(ps, j)
        ensures ps[j].value.0 in OptionsOf(ps) && OptionsOf(ps)[ps[j].value.0] == ps[j].value.1
      {
        if j < n {
          var kv := ps[j].value;
          assert !Defines(ps, n, kv.0);
          assert LastDefinition(init, j) by {
            forall j' | j < j' < |init| ensures !Defines(init, j', kv.0) {
              assert !Defines(ps, j', kv.0);
            }
          }
        }
      }
    }
  }

  /** A segment defines a parameter exactly when it contains `=`; the key is the trimmed,
      lower-cased text before the first `=`, and the value the text after it, trimmed of
      whitespace, then of quotes, then of whitespace again. */
  lemma ParameterDefined(part: string)
    ensures Parameter(part).Some? <==> '=' in part
    ensures match StrPos(Trim(part), "=")
            case None => Parameter(part).None?
            case Some(p) =>
              Parameter(part) == Some((Lower(Trim(Trim(part)[..p])), Trim(TrimChars(Trim(Trim(part)[p + 1..]), Quotes))))
  {
    var t := Trim(part);
    TrimCharsKeeps(part, Whitespace, '=');
    Explode2Join("=", t);
    FreeChar(t, '=');
  }

  /** The key is lower case and holds no `=`; the value is trimmed, and no longer than
      the segment. */
  lemma ParameterShape(part: string)
    requires Parameter(part).Some?
    ensures Lower(Parameter(part).value.0) == Parameter(part).value.0
    ensures '=' !in Parameter(part).value.0
    ensures Trim(Parameter(part).value.1) == Parameter(part).value.1
    ensures |Parameter(part).value.1| <= |part|
  {
    var t := Trim(part);
    var kv := Explode2("=", t);
    Explode2Join("=", t);
    ExplodeBound("=", t);
    FreeChar(kv[0], '=');
    TrimCharsKeeps(kv[0], Whitespace, '=');
    LowerIdempotent(Trim(kv[0]));
    LowerKeeps(Trim(kv[0]), '=');
    TrimIdempotent(TrimChars(Trim(kv[1]), Quotes));
  }

  /** The primary value is the trimmed text before the first `;`, or the whole trimmed
      value when it has none. */
  lemma ParseValueFacts(raw: string)
    ensures ';' !in ParseValue(raw).value
    ensures Trim(ParseValue(raw).value) == ParseValue(raw).value
    ensures match StrPos(Trim(raw), ";")
            case None => ParseValue(raw).value == Trim(raw)
            case Some(p) => ParseValue(raw).value == Trim(Trim(raw)[..p])
  {
    TrimIdempotent(raw);
    var parts := Explode(";", Trim(raw));
    ExplodeJoin(";", Trim(raw));
    FreeChar(parts[0], ';');
    TrimCharsKeeps(parts[0], Whitespace, ';');
    TrimIdempotent(parts[0]);
  }

  /** No parameter value is longer than `n` when no defined value is. */
  lemma {:induction false} OptionsBound(ps: seq<Option<(string, string)>>, n: nat)
    requires forall j :: 0 <= j < |ps| && ps[j].Some? ==> |ps[j].value.1| <= n
    ensures forall k :: k in OptionsOf(ps) ==> |OptionsOf(ps)[k]| <= n
    decreases |ps|
  {
    if ps != [] {
      OptionsBound(ps[..|ps| - 1], n);
    }
  }

  /** When every defined value is trimmed, so is every option value. */
  lemma {:induction false} OptionsTrimmed(ps: seq<Option<(string, string)>>)
    requires forall j :: 0 <= j < |ps| && ps[j].Some? ==> Trim(ps[j].value.1) == ps[j].value.1
    ensures forall k :: k in OptionsOf(ps) ==> Trim(OptionsOf(ps)[k]) == OptionsOf(ps)[k]
    decreases |ps|
  {
    if ps != [] {
      OptionsTrimmed(ps[..|ps| - 1]);
    }
  }

  /** Every parameter value of a header value is trimmed. */
  lemma ParseValueTrimmed(raw: string)
    ensures forall k :: k in ParseValue(raw).options ==> Trim(ParseValue(raw).options[k]) == ParseValue(raw).options[k]
  {
    var parts := Explode(";", Trim(raw));
    var ps := Parameters(parts[1..]);
    forall j | 0 <= j < |ps| && ps[j].Some? ensures Trim(ps[j].value.1) == ps[j].value.1 {
      ParameterShape(parts[1..][j]);
    }
    OptionsTrimmed(ps);
  }

  /** Every option value `getHeaderValueAndOptions` returns is trimmed. */
  lemma HeaderValueAndOptionsTrimmed(headers: seq<Header>, name: string)
    ensures var options := HeaderValueAndOptions(headers, name).options;
      forall k :: k in options ==> Trim(options[k]) == options[k]
  {
    HeaderValueAndOptionsIsParseOfValue(headers, name);
    ParseValueTrimmed(HeaderValue(headers, name));
  }

  /** The same for one option. */
  lemma OptionTrimmed(headers: seq<Header>, name: string, key: string)
    requires key in HeaderValueAndOptions(headers, name).options
    ensures Trim(HeaderValueAndOptions(headers, name).options[key]) == HeaderValueAndOptions(headers, name).options[key]
  {
    HeaderValueAndOptionsTrimmed(headers, name);
  }

  /** No parameter value is longer than the header value it was read from. */
  lemma ParseValueBound(raw: string)
    ensures forall k :: k in ParseValue(raw).options ==> |ParseValue(raw).options[k]| <= |raw|
  {
    var parts := Explode(";", Trim(raw));
    ExplodeBound(";", Trim(raw));
    var ps := Parameters(parts[1..]);
    forall j | 0 <= j < |ps| && ps[j].Some? ensures |ps[j].value.1| <= |raw| {
      ParameterShape(parts[1..][j]);
    }
    OptionsBound(ps, |raw|);
  }

  /** No parameter value is longer than the longest header value. */
  lemma {:induction false} HeaderValueAndOptionsBound(headers: seq<Header>, name: string, n: nat)
    requires forall i :: 0 <= i < |headers| ==> |headers[i].value| <= n
    ensures forall k :: k in HeaderValueAndOptions(headers, name).options ==>
      |HeaderValueAndOptions(headers, name).options[k]| <= n
  {
    if headers != [] {
      if Matches(headers[0], name) {
        ParseValueBound(headers[0].value);
      } else {
        HeaderValueAndOptionsBound(headers[1..], name, n);
      }
    }
  }
}
