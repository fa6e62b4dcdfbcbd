/**
 * main.py, `RequestHandler.do_GET`: route on the first segment of the path,
 * turn the query parameters into filters (rejecting a bad year with 400),
 * look the properties up, and answer 404 for no rows or 200 with the rows.
 *
 * `path` is the raw path component `urlparse` gives; it is not
 * percent-decoded, so routing sees the text as sent. `query` is what
 * `parse_qs` gives: the decoded map from each parameter name to its
 * non-empty list of values. The rows the
 * lookup returns are the parameter `fetched`; the handler reports in `lookup`
 * the filters it passed to `get_properties_filtered`, or None when it never
 * called it.
 */
module Handler {
  import opened Wrappers
  import opened Sequences
  import opened Decimal
  import opened Queries

  // ---------------------------------------------------------------- routing

  /** `s.lstrip(c)`: the longest prefix made of `c` removed. */
  function TrimLeft(s: string, c: char): (r: string)
    ensures |r| <= |s| && r == s[|s| - |r|..]
    ensures forall k :: 0 <= k < |s| - |r| ==> s[k] == c
    ensures r != [] ==> r[0] != c
  {
    if s != [] && s[0] == c then
      var r := TrimLeft(s[1..], c);
      assert s[1..][|s| - 1 - |r|..] == s[|s| - |r|..];
      r
    else s
  }

  /** `s.rstrip(c)`: the longest suffix made of `c` removed. */
  function TrimRight(s: string, c: char): (r: string)
    ensures |r| <= |s| && r == s[..|r|]
    ensures forall k :: |r| <= k < |s| ==> s[k] == c
    ensures r != [] ==> r[|r| - 1] != c
  {
    if s != [] && s[|s| - 1] == c then
      var r := TrimRight(s[..|s| - 1], c);
      assert s[..|s| - 1][..|r|] == s[..|r|];
      r
    else s
  }

  /** `s.strip(c)`: a middle slice of `s`, everything around it is `c`, and it
      neither starts nor ends with `c`. */
  function Strip(s: string, c: char): (r: string)
    ensures exists i :: 0 <= i <= |s| - |r| && s[i..][..|r|] == r
                        && (forall k :: 0 <= k < i ==> s[k] == c)
                        && (forall k :: i + |r| <= k < |s| ==> s[k] == c)
    ensures r != [] ==> r[0] != c && r[|r| - 1] != c
  {
    var left := TrimLeft(s, c);
    var r := TrimRight(left, c);
    var i := |s| - |left|;
    assert s[i..][..|r|] == left[..|r|];
    forall k | i + |r| <= k < |s| ensures s[k] == c {
      assert s[k] == left[k - i];
    }
    r
  }

  /** Lines 30-31: `path.strip("/").split("/")[0]`. */
  function FirstSegment(path: string): (segment: string)
    ensures '/' !in segment
  {
    var t := Strip(path, '/');
    SplitSepFree(t, '/');
    Split(t, '/')[0]
  }

  /** Line 33: the properties route is taken exactly when the stripped path is
      "properties" or starts with "properties/"; what follows is ignored. */
  lemma PropertiesRoute(path: string)
    ensures var t := Strip(path, '/');
      FirstSegment(path) == "properties" <==> t == "properties" || (|t| > 10 && t[..11] == "properties/")
  {
    assert '/' !in "properties";
    assert "properties" + ['/'] == "properties/";
    SplitHead(Strip(path, '/'), '/', "properties");
  }

  /** Stripping `c` from `c + w + rest`, where `w` holds no `c` and `rest` is
      empty or starts with `c`, leaves `w`, alone or followed by a `c`. */
  lemma StripWord(w: string, rest: string, c: char)
    requires w != [] && c !in w
    requires rest == [] || rest[0] == c
    ensures var t := Strip([c] + w + rest, c);
      t == w || (|t| > |w| && t[..|w| + 1] == w + [c])
  {
    var path := [c] + w + rest;
    assert path[1..] == w + rest;
    assert TrimLeft(path[1..], c) == path[1..] by {
      assert path[1..][0] == w[0];
    }
    var left := TrimLeft(path, c);
    assert left == w + rest;
    var t := TrimRight(left, c);
    assert left[|w| - 1] == w[|w| - 1] != c by {
      assert w[|w| - 1] in w;
    }
    assert |t| >= |w|;
    assert t[..|w|] == left[..|w|] == w;
    if |t| > |w| {
      assert t[|w|] == left[|w|] == rest[0];
      assert t[..|w| + 1] == t[..|w|] + [t[|w|]];
    } else {
      assert t == t[..|w|];
    }
  }

  /** "/properties", "/properties/" and "/properties/<anything>" all reach the route. */
  lemma PropertiesPathsRoute(rest: string)
    requires rest == [] || rest[0] == '/'
    ensures FirstSegment("/properties" + rest) == "properties"
  {
    assert '/' !in "properties";
    assert "/properties" + rest == ['/'] + "properties" + rest;
    StripWord("properties", rest, '/');
    SplitHead(Strip("/properties" + rest, '/'), '/', "properties");
  }

  /** "/invalid_endpoint" does not reach the properties route (answered with 403). */
  lemma InvalidEndpointForbidden()
    ensures FirstSegment("/invalid_endpoint") != "properties"
  {
    var w := "invalid_endpoint";
    assert '/' !in w;
    assert "/invalid_endpoint" == ['/'] + w + [];
    StripWord(w, [], '/');
    var t := Strip("/invalid_endpoint", '/');
    assert t == w;
    assert w[0] != "properties"[0];
    PropertiesRoute("/invalid_endpoint");
  }

  // ---------------------------------------------------------------- filters

  /** What `parse_qs` produces: every name present has at least one value. */
  predicate WellFormedQuery(query: map<string, seq<string>>)
  {
    forall k :: k in query ==> query[k] != []
  }

  /** The first value given for `key`, when there is one. */
  function FirstValue(query: map<string, seq<string>>, key: string): Option<string>
    requires WellFormedQuery(query)
  {
    if key in query then Some(query[key][0]) else None
  }

  const YearOutOfRange: string := "Year out of range (1900-2100)"

  /** The text of the ValueError `int` raises for `s`. */
  function InvalidLiteral(s: string): string
  {
    "invalid literal for int() with base 10: '" + s + "'"
  }

  /** Lines 41-44: a year is given and is not an integer in [1900, 2100]. */
  predicate YearRejected(query: map<string, seq<string>>)
    requires WellFormedQuery(query)
  {
    "year" in query
    && match ParseInt(query["year"][0])
       case None => true
       case Some(y) => y < 1900 || y > 2100
  }

  /** Lines 36-52: start from an empty filter set and add status, year and city
      in turn, each from the first value given; a year that does not parse, or
      that falls outside [1900, 2100], ends the parse with its error message. */
  method ParseFilters(query: map<string, seq<string>>) returns (r: Result<Filters, string>)
    requires WellFormedQuery(query)
    ensures r.Failure? <==> YearRejected(query)
    ensures "year" in query && ParseInt(query["year"][0]).None? ==> r == Failure(InvalidLiteral(query["year"][0]))
    ensures "year" in query && ParseInt(query["year"][0]).Some? && YearRejected(query) ==> r == Failure(YearOutOfRange)
    ensures r.Success? ==>
      && r.value.status == FirstValue(query, "status")
      && r.value.city == FirstValue(query, "city")
      && (r.value.year.Some? <==> "year" in query)
      && (r.value.year.Some? ==>
            ParseInt(query["year"][0]) == Some(r.value.year.value) && 1900 <= r.value.year.value <= 2100)
  {
    var filters := NoFilters;
    if "status" in query {
      filters := filters.(status := Some(query["status"][0]));
    }
    if "year" in query {
      var parsed := ParseInt(query["year"][0]);
      if parsed.None? {
        return Failure(InvalidLiteral(query["year"][0]));
      }
      filters := filters.(year := Some(parsed.value));
      if filters.year.value < 1900 || filters.year.value > 2100 {
        return Failure(YearOutOfRange);
      }
    }
    if "city" in query {
      filters := filters.(city := Some(query["city"][0]));
    }
    return Success(filters);
  }

  /** "year=1800" parses and is rejected as out of range; "year=2020" is accepted. */
  lemma YearExamples()
    ensures ParseInt("1800") == Some(1800) && YearRejected(map["year" := ["1800"]])
    ensures ParseInt("2020") == Some(2020) && !YearRejected(map["year" := ["2020"]])
  {
    IntRoundTrip(1800);
    IntRoundTrip(2020);
    assert IntToString(1800) == "1800";
    assert IntToString(2020) == "2020";
  }

  // ---------------------------------------------------------------- responses

  /** The JSON body: `{"error": message}` or the list of rows. */
  datatype Body = ErrorBody(message: string) | RowsBody(rows: seq<ResultRow>)

  datatype Response = Response(code: int, body: Body)

  /** Lines 30-65. */
  method DoGet(path: string, query: map<string, seq<string>>, fetched: seq<ResultRow>)
    returns (resp: Response, lookup: Option<Filters>)
    requires WellFormedQuery(query)
    ensures FirstSegment(path) != "properties" ==> resp == Response(403, ErrorBody("Forbidden")) && lookup == None
    ensures FirstSegment(path) == "properties" && YearRejected(query) ==>
      && resp.code == 400 && lookup == None
      && resp.body == ErrorBody(if ParseInt(query["year"][0]).None? then InvalidLiteral(query["year"][0]) else YearOutOfRange)
    ensures lookup.Some? <==> FirstSegment(path) == "properties" && !YearRejected(query)
    ensures lookup.Some? ==>
      && lookup.value.status == FirstValue(query, "status")
      && lookup.value.city == FirstValue(query, "city")
      && (lookup.value.year.Some? <==> "year" in query)
      && (lookup.value.year.Some? ==> ParseInt(query["year"][0]) == Some(lookup.value.year.value))
    ensures lookup.Some? ==>
      resp == if fetched == [] then Response(404, ErrorBody("No properties found")) else Response(200, RowsBody(fetched))
    ensures resp.code == 400 <==> FirstSegment(path) == "properties" && YearRejected(query)
  {
    var parts := Split(Strip(path, '/'), '/');
    if parts[0] == "properties" {
      var parsed := ParseFilters(query);
      if parsed.Failure? {
        return Response(400, ErrorBody(parsed.error)), None;
      }
      var filters := parsed.value;
      lookup := Some(filters);
      if fetched == [] {
        resp := Response(404, ErrorBody("No properties found"));
      } else {
        resp := Response(200, RowsBody(fetched));
      }
    } else {
      resp, lookup := Response(403, ErrorBody("Forbidden")), None;
    }
  }
}
