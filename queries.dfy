/**
 * mylib/queries.py, `get_properties_filtered`: a fixed SELECT that joins each
 * property to its status history and status names, keeps only each property's
 * latest history rows and the three listed statuses, then has one
 * `AND ... %s` clause and one bound parameter appended per filter present.
 *
 * The database is a value here (three tables as sequences) and the SQL is
 * given its relational meaning by `Execute`; the driver, the connection and
 * the cursor are not modelled.
 */
module Queries {
  import opened Wrappers
  import opened Sequences

  // ---------------------------------------------------------------- tables

  /** A `property` row. `year` is the column the year filter compares with;
      the schema does not say where it lives, so it is put here. */
  datatype Property = Property(id: int, address: string, city: string, price: real, description: string, year: int)

  /** A `status_history` row; `updateDate` is the timestamp as a number. */
  datatype HistoryRow = HistoryRow(propertyId: int, statusId: int, updateDate: int)

  /** A `status` row. */
  datatype StatusRow = StatusRow(id: int, name: string)

  datatype Database = Database(properties: seq<Property>, history: seq<HistoryRow>, statuses: seq<StatusRow>)

  /** One row of the SELECT list: the property's columns and `s.name AS status`. */
  datatype ResultRow = ResultRow(id: int, address: string, city: string, price: real, description: string, status: string)

  function Project(p: Property, s: StatusRow): ResultRow
  {
    ResultRow(p.id, p.address, p.city, p.price, p.description, s.name)
  }

  // ---------------------------------------------------------------- filters and statement

  /** The `filters` dict: each key is either absent or holds its value. */
  datatype Filters = Filters(status: Option<string>, year: Option<int>, city: Option<string>)

  const NoFilters := Filters(None, None, None)

  /** The three clauses the builder can append. */
  datatype Clause = StatusLike | YearEquals | CityEquals

  /** A value bound to a `%s` placeholder. */
  datatype Param = Text(text: string) | Number(number: int)

  /** Lines 8-26, character for character, cut into lines. */
  const BaseLines: seq<string> := [
    "\n",
    "        SELECT\n",
    "            p.id,\n",
    "            p.address,\n",
    "            p.city,\n",
    "            p.price,\n",
    "            p.description,\n",
    "            s.name AS status\n",
    "        FROM property p\n",
    "        JOIN status_history h",
    " ON h.property_id = p.id\n",
    "        JOIN status s",
    " ON s.id = h.status_id\n",
    "        WHERE NOT EXISTS (\n",
    "            SELECT 1\n",
    "            FROM status_history h2\n",
    "            WHERE h2.property_id",
    " = h.property_id\n",
    "            AND h2.update_date",
    " > h.update_date\n",
    "        )\n",
    "        AND s.name IN (",
    "'pre_venta', 'en_venta', 'vendido')\n",
    "    "
  ]

  /** The fixed statement every call starts from. */
  const BaseQuery: string := Concat(BaseLines)

  /** The text a clause appends, lines 30, 34 and 38. */
  function ClauseText(c: Clause): string
  {
    match c
    case StatusLike => " AND name LIKE %s"
    case YearEquals => " AND year = %s"
    case CityEquals => " AND city = %s"
  }

  /** The statement text after the clauses have been appended to the base query. */
  function QueryText(clauses: seq<Clause>): (query: string)
    ensures |query| >= |BaseQuery| && query[..|BaseQuery|] == BaseQuery
  {
    BaseQuery + Concat(seq(|clauses|, i requires 0 <= i < |clauses| => ClauseText(clauses[i])))
  }

  /** The number of `%s` placeholders in a statement text. */
  function Placeholders(s: string): nat
  {
    if |s| < 2 then 0
    else (if s[0] == '%' && s[1] == 's' then 1 else 0) + Placeholders(s[1..])
  }

  /** The position of a clause in the fixed order status, year, city. */
  function Rank(c: Clause): nat
  {
    match c
    case StatusLike => 0
    case YearEquals => 1
    case CityEquals => 2
  }

  /** Whether the filter that a clause tests is present (lines 29, 33, 37). */
  predicate Present(c: Clause, f: Filters)
  {
    match c
    case StatusLike => f.status.Some?
    case YearEquals => f.year.Some?
    case CityEquals => f.city.Some?
  }

  /** The parameter bound for a clause (lines 31, 35, 39): the status wrapped in
      '%' for a substring match, the year and the city as they are. */
  function Bound(c: Clause, f: Filters): Param
    requires Present(c, f)
  {
    match c
    case StatusLike => Text("%" + f.status.value + "%")
    case YearEquals => Number(f.year.value)
    case CityEquals => Text(f.city.value)
  }

  /** Lines 27-39: start from the base query and no parameters, then for each
      filter present, in the order status, year, city, append its clause and
      its parameter. */
  method BuildQuery(filters: Filters) returns (clauses: seq<Clause>, params: seq<Param>)
    ensures |params| == |clauses|
    ensures forall c :: c in clauses <==> Present(c, filters)
    ensures forall i, j :: 0 <= i < j < |clauses| ==> Rank(clauses[i]) < Rank(clauses[j])
    ensures forall i :: 0 <= i < |clauses| ==> Present(clauses[i], filters) && params[i] == Bound(clauses[i], filters)
    ensures filters == NoFilters ==> QueryText(clauses) == BaseQuery && params == []
  {
    clauses, params := [], [];
    if filters.status.Some? {
      clauses := clauses + [StatusLike];
      params := params + [Text("%" + filters.status.value + "%")];
    }
    if filters.year.Some? {
      clauses := clauses + [YearEquals];
      params := params + [Number(filters.year.value)];
    }
    if filters.city.Some? {
      clauses := clauses + [CityEquals];
      params := params + [Text(filters.city.value)];
    }
    if filters == NoFilters {
      assert Concat<char>([]) == [];
    }
  }

  // ---------------------------------------------------------------- placeholders

  /** The base statement holds no '%' at all, hence no placeholder. The lines
      are checked four at a time, which keeps each literal check small. */
  lemma BaseQueryHasNoPercent()
    ensures '%' !in BaseQuery
  {
    BaseLinesHaveNoPercent0();
    BaseLinesHaveNoPercent1();
    BaseLinesHaveNoPercent2();
    BaseLinesHaveNoPercent3();
    BaseLinesHaveNoPercent4();
    BaseLinesHaveNoPercent5();
    ConcatSepFree(BaseLines, '%');
  }

  lemma BaseLinesHaveNoPercent0()
    ensures '%' !in BaseLines[0] && '%' !in BaseLines[1] && '%' !in BaseLines[2] && '%' !in BaseLines[3]
  {
  }

  lemma BaseLinesHaveNoPercent1()
    ensures '%' !in BaseLines[4] && '%' !in BaseLines[5] && '%' !in BaseLines[6] && '%' !in BaseLines[7]
  {
  }

  lemma BaseLinesHaveNoPercent2()
    ensures '%' !in BaseLines[8] && '%' !in BaseLines[9] && '%' !in BaseLines[10] && '%' !in BaseLines[11]
  {
  }

  lemma BaseLinesHaveNoPercent3()
    ensures '%' !in BaseLines[12] && '%' !in BaseLines[13] && '%' !in BaseLines[14] && '%' !in BaseLines[15]
  {
  }

  lemma BaseLinesHaveNoPercent4()
    ensures '%' !in BaseLines[16] && '%' !in BaseLines[17] && '%' !in BaseLines[18] && '%' !in BaseLines[19]
  {
  }

  lemma BaseLinesHaveNoPercent5()
    ensures '%' !in BaseLines[20] && '%' !in BaseLines[21] && '%' !in BaseLines[22] && '%' !in BaseLines[23]
  {
  }

  /** Counting placeholders splits over a concatenation whose left part does not end in '%'. */
  lemma {:induction false} PlaceholdersAppend(a: string, b: string)
    requires a == [] || a[|a| - 1] != '%'
    ensures Placeholders(a + b) == Placeholders(a) + Placeholders(b)
    decreases |a|
  {
    if a == [] {
      assert a + b == b;
    } else if |a| == 1 {
      assert (a + b)[1..] == b;
    } else {
      assert (a + b)[1..] == a[1..] + b;
      PlaceholdersAppend(a[1..], b);
    }
  }

  /** A text without '%' has no placeholder. */
  lemma {:induction false} NoPercentNoPlaceholder(s: string)
    requires '%' !in s
    ensures Placeholders(s) == 0
    decreases |s|
  {
    if |s| >= 2 {
      assert s[0] in s;
      assert forall k :: 0 <= k < |s[1..]| ==> s[1..][k] in s;
      NoPercentNoPlaceholder(s[1..]);
    }
  }

  /** Each clause holds exactly one placeholder, at its end. */
  lemma ClausePlaceholder(c: Clause)
    ensures Placeholders(ClauseText(c)) == 1
    ensures var t := ClauseText(c); t[|t| - 1] == 's'
  {
    var prefix := match c
      case StatusLike => " AND name LIKE "
      case YearEquals => " AND year = "
      case CityEquals => " AND city = ";
    assert ClauseText(c) == prefix + "%s";
    assert '%' !in prefix && prefix[|prefix| - 1] == ' ';
    NoPercentNoPlaceholder(prefix);
    PlaceholdersAppend(prefix, "%s");
  }

  /** The full statement holds one placeholder per appended clause. */
  lemma QueryPlaceholders(clauses: seq<Clause>)
    ensures Placeholders(QueryText(clauses)) == |clauses|
  {
    var texts := seq(|clauses|, i requires 0 <= i < |clauses| => ClauseText(clauses[i]));
    BaseQueryHasNoPercent();
    NoPercentNoPlaceholder(BaseQuery);
    PlaceholdersAppend(BaseQuery, Concat(texts));
    ClausesPlaceholders(clauses);
  }

  lemma {:induction false} ClausesPlaceholders(clauses: seq<Clause>)
    ensures Placeholders(Concat(seq(|clauses|, i requires 0 <= i < |clauses| => ClauseText(clauses[i])))) == |clauses|
    decreases |clauses|
  {
    var texts := seq(|clauses|, i requires 0 <= i < |clauses| => ClauseText(clauses[i]));
    if clauses != [] {
      var tail := seq(|clauses| - 1, i requires 0 <= i < |clauses| - 1 => ClauseText(clauses[1..][i]));
      assert texts[1..] == tail;
      ClausesPlaceholders(clauses[1..]);
      ClausePlaceholder(clauses[0]);
      PlaceholdersAppend(texts[0], Concat(tail));
    }
  }

  // ---------------------------------------------------------------- LIKE

  /** SQL `LIKE` with '%' standing for any run of characters; every other
      character, '_' included, matches only itself. */
  function Like(s: string, pattern: string): bool
    decreases |pattern|, |s|
  {
    if pattern == [] then s == []
    else if pattern[0] == '%' then Like(s, pattern[1..]) || (s != [] && Like(s[1..], pattern))
    else s != [] && s[0] == pattern[0] && Like(s[1..], pattern[1..])
  }

  /** `v` occurs in `s` as a contiguous piece. */
  predicate Contains(s: string, v: string)
  {
    exists k :: 0 <= k <= |s| - |v| && s[k..][..|v|] == v
  }

  /** A lone '%' matches everything. */
  lemma {:induction false} LikeAll(s: string)
    ensures Like(s, "%")
    decreases |s|
  {
    if s != [] {
      LikeAll(s[1..]);
    }
  }

  /** A pattern that starts with literal text matches exactly the strings that
      start with that text and whose remainder matches the rest. */
  lemma {:induction false} LikeLiteralPrefix(s: string, v: string, rest: string)
    requires '%' !in v
    ensures Like(s, v + rest) <==> |v| <= |s| && s[..|v|] == v && Like(s[|v|..], rest)
    decreases |v|
  {
    if v == [] {
      assert v + rest == rest && s[..0] == v && s[0..] == s;
    } else {
      assert (v + rest)[0] == v[0] && v[0] in v;
      assert (v + rest)[1..] == v[1..] + rest;
      assert forall c :: c in v[1..] ==> c in v;
      if s != [] {
        LikeLiteralPrefix(s[1..], v[1..], rest);
        if |v| <= |s| {
          assert s[..|v|] == [s[0]] + s[1..][..|v| - 1];
          assert s[1..][|v| - 1..] == s[|v|..];
        }
      }
    }
  }

  /** A pattern that starts with '%' matches when its rest matches some suffix. */
  lemma {:induction false} LikeLeadingPercent(s: string, q: string)
    ensures Like(s, "%" + q) <==> exists k :: 0 <= k <= |s| && Like(s[k..], q)
    decreases |s|
  {
    assert ("%" + q)[0] == '%' && ("%" + q)[1..] == q;
    assert s[0..] == s;
    if s != [] {
      LikeLeadingPercent(s[1..], q);
      if Like(s[1..], "%" + q) {
        var k :| 0 <= k <= |s[1..]| && Like(s[1..][k..], q);
        assert s[1..][k..] == s[k + 1..];
      }
      if exists k :: 0 <= k <= |s| && Like(s[k..], q) {
        var k :| 0 <= k <= |s| && Like(s[k..], q);
        if k > 0 {
          assert s[1..][k - 1..] == s[k..];
        }
      }
    }
  }

  /** Line 31: for a status value without '%', the pattern "%value%" matches
      exactly the names that contain the value. */
  lemma LikeIsSubstring(name: string, v: string)
    requires '%' !in v
    ensures Like(name, "%" + v + "%") <==> Contains(name, v)
  {
    assert "%" + v + "%" == "%" + (v + "%");
    LikeLeadingPercent(name, v + "%");
    if Like(name, "%" + (v + "%")) {
      var k :| 0 <= k <= |name| && Like(name[k..], v + "%");
      LikeLiteralPrefix(name[k..], v, "%");
      assert 0 <= k <= |name| - |v| && name[k..][..|v|] == v;
    }
    if Contains(name, v) {
      var k :| 0 <= k <= |name| - |v| && name[k..][..|v|] == v;
      LikeLiteralPrefix(name[k..], v, "%");
      LikeAll(name[k..][|v|..]);
      assert Like(name[k..], v + "%");
    }
  }

  // ---------------------------------------------------------------- meaning of the statement

  /** Lines 19-24: no history row of the same property has a strictly later date. */
  predicate IsLatest(h: HistoryRow, history: seq<HistoryRow>)
  {
    forall h2 :: h2 in history && h2.propertyId == h.propertyId ==> h2.updateDate <= h.updateDate
  }

  /** Line 25: the only status names the statement returns. */
  const AllowedStatuses: set<string> := {"pre_venta", "en_venta", "vendido"}

  /** The WHERE of the base query together with both JOIN conditions (lines 17-25). */
  predicate BaseWhere(db: Database, p: Property, h: HistoryRow, s: StatusRow)
  {
    && h.propertyId == p.id
    && s.id == h.statusId
    && IsLatest(h, db.history)
    && s.name in AllowedStatuses
  }

  /** What an appended clause demands of a joined row, given its bound parameter. */
  predicate ClauseHolds(c: Clause, param: Param, p: Property, s: StatusRow)
  {
    match (c, param)
    case (StatusLike, Text(pattern)) => Like(s.name, pattern)
    case (YearEquals, Number(n)) => p.year == n
    case (CityEquals, Text(t)) => p.city == t
    case _ => false
  }

  predicate ClausesHold(clauses: seq<Clause>, params: seq<Param>, p: Property, s: StatusRow)
  {
    |clauses| == |params| && forall i :: 0 <= i < |clauses| ==> ClauseHolds(clauses[i], params[i], p, s)
  }

  /** Whether the statement keeps the joined row (p, h, s). */
  predicate Selects(db: Database, clauses: seq<Clause>, params: seq<Param>, p: Property, h: HistoryRow, s: StatusRow)
  {
    BaseWhere(db, p, h, s) && ClausesHold(clauses, params, p, s)
  }

  /** The rows for one property and one history row, over the status rows `ss`. */
  function StatusRows(db: Database, clauses: seq<Clause>, params: seq<Param>, p: Property, h: HistoryRow, ss: seq<StatusRow>): seq<ResultRow>
  {
    if ss == [] then []
    else (if Selects(db, clauses, params, p, h, ss[0]) then [Project(p, ss[0])] else [])
         + StatusRows(db, clauses, params, p, h, ss[1..])
  }

  /** The rows for one property, over the history rows `hs`. */
  function HistoryRows(db: Database, clauses: seq<Clause>, params: seq<Param>, p: Property, hs: seq<HistoryRow>): seq<ResultRow>
  {
    if hs == [] then []
    else StatusRows(db, clauses, params, p, hs[0], db.statuses) + HistoryRows(db, clauses, params, p, hs[1..])
  }

  /** The rows over the property rows `ps`. */
  function PropertyRows(db: Database, clauses: seq<Clause>, params: seq<Param>, ps: seq<Property>): seq<ResultRow>
  {
    if ps == [] then []
    else HistoryRows(db, clauses, params, ps[0], db.history) + PropertyRows(db, clauses, params, ps[1..])
  }

  /** `cursor.execute(query, params)` then `fetchall()`: the rows of the statement
      in nested-loop join order (the statement itself promises no order). */
  function Execute(db: Database, clauses: seq<Clause>, params: seq<Param>): seq<ResultRow>
  {
    PropertyRows(db, clauses, params, db.properties)
  }

  lemma {:induction false} StatusRowsMembers(db: Database, clauses: seq<Clause>, params: seq<Param>, p: Property, h: HistoryRow, ss: seq<StatusRow>, r: ResultRow)
    ensures r in StatusRows(db, clauses, params, p, h, ss) <==>
      exists s :: s in ss && Selects(db, clauses, params, p, h, s) && r == Project(p, s)
    decreases |ss|
  {
    if ss != [] {
      StatusRowsMembers(db, clauses, params, p, h, ss[1..], r);
      assert forall s :: s in ss <==> s == ss[0] || s in ss[1..];
    }
  }

  lemma {:induction false} HistoryRowsMembers(db: Database, clauses: seq<Clause>, params: seq<Param>, p: Property, hs: seq<HistoryRow>, r: ResultRow)
    ensures r in HistoryRows(db, clauses, params, p, hs) <==>
      exists h, s :: h in hs && s in db.statuses && Selects(db, clauses, params, p, h, s) && r == Project(p, s)
    decreases |hs|
  {
    if hs != [] {
      HistoryRowsMembers(db, clauses, params, p, hs[1..], r);
      StatusRowsMembers(db, clauses, params, p, hs[0], db.statuses, r);
      assert forall h :: h in hs <==> h == hs[0] || h in hs[1..];
    }
  }

  lemma {:induction false} PropertyRowsMembers(db: Database, clauses: seq<Clause>, params: seq<Param>, ps: seq<Property>, r: ResultRow)
    ensures r in PropertyRows(db, clauses, params, ps) <==>
      exists p, h, s :: p in ps && h in db.history && s in db.statuses && Selects(db, clauses, params, p, h, s) && r == Project(p, s)
    decreases |ps|
  {
    if ps != [] {
      PropertyRowsMembers(db, clauses, params, ps[1..], r);
      HistoryRowsMembers(db, clauses, params, ps[0], db.history, r);
      assert forall p :: p in ps <==> p == ps[0] || p in ps[1..];
    }
  }

  /** A row is returned exactly when some property, one of its latest history
      rows and that row's allowed status satisfy every appended clause. */
  lemma ExecuteMembers(db: Database, clauses: seq<Clause>, params: seq<Param>, r: ResultRow)
    ensures r in Execute(db, clauses, params) <==>
      exists p, h, s :: p in db.properties && h in db.history && s in db.statuses
                        && Selects(db, clauses, params, p, h, s) && r == Project(p, s)
  {
    PropertyRowsMembers(db, clauses, params, db.properties, r);
  }

  /** Whatever is appended, every returned row carries one of the three allowed
      statuses and belongs to a property that has a latest history row;
      properties without history never appear. */
  lemma ResultsAreCurrentAndAllowed(db: Database, clauses: seq<Clause>, params: seq<Param>, r: ResultRow)
    requires r in Execute(db, clauses, params)
    ensures r.status in AllowedStatuses
    ensures exists h :: h in db.history && h.propertyId == r.id && IsLatest(h, db.history)
  {
    ExecuteMembers(db, clauses, params, r);
  }

  /** Two latest history rows of one property share its maximum date: a tie is
      the only way a property can have more than one. */
  lemma LatestRowsTie(history: seq<HistoryRow>, h1: HistoryRow, h2: HistoryRow)
    requires h1 in history && h2 in history && h1.propertyId == h2.propertyId
    requires IsLatest(h1, history) && IsLatest(h2, history)
    ensures h1.updateDate == h2.updateDate
  {
  }

  /** The filters as the appended clauses test them: the status through LIKE
      with the wrapped pattern, the year and the city by equality. */
  predicate Admits(f: Filters, p: Property, s: StatusRow)
  {
    && (f.status.Some? ==> Like(s.name, "%" + f.status.value + "%"))
    && (f.year.Some? ==> p.year == f.year.value)
    && (f.city.Some? ==> p.city == f.city.value)
  }

  /** Clauses and parameters shaped as the builder leaves them test exactly the filters. */
  lemma BuiltClausesMeanFilters(f: Filters, clauses: seq<Clause>, params: seq<Param>, p: Property, s: StatusRow)
    requires |params| == |clauses|
    requires forall c :: c in clauses <==> Present(c, f)
    requires forall i :: 0 <= i < |clauses| ==> Present(clauses[i], f) && params[i] == Bound(clauses[i], f)
    ensures ClausesHold(clauses, params, p, s) <==> Admits(f, p, s)
  {
    if ClausesHold(clauses, params, p, s) {
      if f.status.Some? {
        assert Present(StatusLike, f);
        var i :| 0 <= i < |clauses| && clauses[i] == StatusLike;
        assert ClauseHolds(clauses[i], params[i], p, s);
      }
      if f.year.Some? {
        assert Present(YearEquals, f);
        var i :| 0 <= i < |clauses| && clauses[i] == YearEquals;
        assert ClauseHolds(clauses[i], params[i], p, s);
      }
      if f.city.Some? {
        assert Present(CityEquals, f);
        var i :| 0 <= i < |clauses| && clauses[i] == CityEquals;
        assert ClauseHolds(clauses[i], params[i], p, s);
      }
    }
    if Admits(f, p, s) {
      forall i | 0 <= i < |clauses| ensures ClauseHolds(clauses[i], params[i], p, s) {
        assert Present(clauses[i], f);
      }
    }
  }

  /** A joined row the base statement keeps and every present filter admits. */
  predicate Passes(db: Database, f: Filters, p: Property, h: HistoryRow, s: StatusRow)
  {
    BaseWhere(db, p, h, s) && Admits(f, p, s)
  }

  /** get_properties_filtered (lines 4-45): build the statement, run it, return
      all its rows. A row comes back exactly when some property, one of its
      latest history rows and that row's allowed status pass every filter;
      `fetchall` keeps duplicates, so two such history rows of one property
      (a tie on its latest date) return it at least twice. The rows are
      exactly those of the statement the builder produced (`clauses` and
      `params`, reported as ghost results), whose clauses test exactly the
      filters; so every fact about `Execute` holds of `rows`, counts included. */
  method GetPropertiesFiltered(filters: Filters, db: Database)
    returns (rows: seq<ResultRow>, ghost clauses: seq<Clause>, ghost params: seq<Param>)
    ensures rows == Execute(db, clauses, params)
    ensures forall p, s :: ClausesHold(clauses, params, p, s) <==> Admits(filters, p, s)
    ensures forall r :: r in rows <==>
      exists p, h, s :: p in db.properties && h in db.history && s in db.statuses
                        && BaseWhere(db, p, h, s) && Admits(filters, p, s) && r == Project(p, s)
    ensures forall i, j1, k1, j2, k2 ::
      0 <= i < |db.properties| && 0 <= j1 < j2 < |db.history| && 0 <= k1 < |db.statuses| && 0 <= k2 < |db.statuses|
      && Passes(db, filters, db.properties[i], db.history[j1], db.statuses[k1])
      && Passes(db, filters, db.properties[i], db.history[j2], db.statuses[k2])
      ==> CountId(rows, db.properties[i].id) >= 2
  {
    var builtClauses, builtParams := BuildQuery(filters);
    clauses, params := builtClauses, builtParams;
    rows := Execute(db, builtClauses, builtParams);
    forall p, s ensures ClausesHold(clauses, params, p, s) <==> Admits(filters, p, s) {
      BuiltClausesMeanFilters(filters, clauses, params, p, s);
    }
    forall r ensures r in rows <==>
      exists p, h, s :: p in db.properties && h in db.history && s in db.statuses
                        && BaseWhere(db, p, h, s) && Admits(filters, p, s) && r == Project(p, s)
    {
      ExecuteMembers(db, clauses, params, r);
    }
    forall i, j1, k1, j2, k2 |
      0 <= i < |db.properties| && 0 <= j1 < j2 < |db.history| && 0 <= k1 < |db.statuses| && 0 <= k2 < |db.statuses|
      && Passes(db, filters, db.properties[i], db.history[j1], db.statuses[k1])
      && Passes(db, filters, db.properties[i], db.history[j2], db.statuses[k2])
      ensures CountId(rows, db.properties[i].id) >= 2
    {
      TiedLatestRowsBothReturned(db, clauses, params, i, j1, k1, j2, k2);
    }
  }

  // ---------------------------------------------------------------- ties

  /** How many rows carry property id `id`. */
  function CountId(rows: seq<ResultRow>, id: int): nat
  {
    if rows == [] then 0 else (if rows[0].id == id then 1 else 0) + CountId(rows[1..], id)
  }

  lemma {:induction false} CountIdAppend(a: seq<ResultRow>, b: seq<ResultRow>, id: int)
    ensures CountId(a + b, id) == CountId(a, id) + CountId(b, id)
    decreases |a|
  {
    if a == [] {
      assert a + b == b;
    } else {
      assert (a + b)[1..] == a[1..] + b;
      CountIdAppend(a[1..], b, id);
    }
  }

  lemma {:induction false} StatusRowsCount(db: Database, clauses: seq<Clause>, params: seq<Param>, p: Property, h: HistoryRow, ss: seq<StatusRow>, k: nat)
    requires k < |ss| && Selects(db, clauses, params, p, h, ss[k])
    ensures CountId(StatusRows(db, clauses, params, p, h, ss), p.id) >= 1
    decreases |ss|
  {
    var head := if Selects(db, clauses, params, p, h, ss[0]) then [Project(p, ss[0])] else [];
    CountIdAppend(head, StatusRows(db, clauses, params, p, h, ss[1..]), p.id);
    if k > 0 {
      StatusRowsCount(db, clauses, params, p, h, ss[1..], k - 1);
    }
  }

  lemma {:induction false} HistoryRowsCount(db: Database, clauses: seq<Clause>, params: seq<Param>, p: Property, hs: seq<HistoryRow>, j1: nat, k1: nat, j2: nat, k2: nat)
    requires j1 <= j2 < |hs| && k1 < |db.statuses| && k2 < |db.statuses|
    requires Selects(db, clauses, params, p, hs[j1], db.statuses[k1])
    requires Selects(db, clauses, params, p, hs[j2], db.statuses[k2])
    ensures CountId(HistoryRows(db, clauses, params, p, hs), p.id) >= if j1 < j2 then 2 else 1
    decreases |hs|
  {
    var head := StatusRows(db, clauses, params, p, hs[0], db.statuses);
    CountIdAppend(head, HistoryRows(db, clauses, params, p, hs[1..]), p.id);
    if j1 == 0 {
      StatusRowsCount(db, clauses, params, p, hs[0], db.statuses, k1);
      if j2 > 0 {
        HistoryRowsCount(db, clauses, params, p, hs[1..], j2 - 1, k2, j2 - 1, k2);
      }
    } else {
      HistoryRowsCount(db, clauses, params, p, hs[1..], j1 - 1, k1, j2 - 1, k2);
    }
  }

  lemma {:induction false} PropertyRowsCount(db: Database, clauses: seq<Clause>, params: seq<Param>, ps: seq<Property>, i: nat)
    requires i < |ps|
    ensures CountId(PropertyRows(db, clauses, params, ps), ps[i].id) >= CountId(HistoryRows(db, clauses, params, ps[i], db.history), ps[i].id)
    decreases |ps|
  {
    CountIdAppend(HistoryRows(db, clauses, params, ps[0], db.history), PropertyRows(db, clauses, params, ps[1..]), ps[i].id);
    if i > 0 {
      PropertyRowsCount(db, clauses, params, ps[1..], i - 1);
    }
  }

  /** Line 23 compares with a strict '>': when two history rows of a property
      share its latest date and both pass, the property is returned twice. */
  lemma TiedLatestRowsBothReturned(db: Database, clauses: seq<Clause>, params: seq<Param>, i: nat, j1: nat, k1: nat, j2: nat, k2: nat)
    requires i < |db.properties| && j1 < j2 < |db.history| && k1 < |db.statuses| && k2 < |db.statuses|
    requires Selects(db, clauses, params, db.properties[i], db.history[j1], db.statuses[k1])
    requires Selects(db, clauses, params, db.properties[i], db.history[j2], db.statuses[k2])
    ensures CountId(Execute(db, clauses, params), db.properties[i].id) >= 2
  {
    HistoryRowsCount(db, clauses, params, db.properties[i], db.history, j1, k1, j2, k2);
    PropertyRowsCount(db, clauses, params, db.properties, i);
  }

  /** A property listed as pre_venta and later as en_venta is returned once,
      as en_venta, by a city filter. */
  lemma LaterStatusWins()
    ensures var db := Database(
              [Property(1, "calle 1", "bogota", 100.0, "casa", 2020)],
              [HistoryRow(1, 1, 1), HistoryRow(1, 2, 2)],
              [StatusRow(1, "pre_venta"), StatusRow(2, "en_venta")]);
            Execute(db, [CityEquals], [Text("bogota")])
              == [ResultRow(1, "calle 1", "bogota", 100.0, "casa", "en_venta")]
  {
    var p := Property(1, "calle 1", "bogota", 100.0, "casa", 2020);
    var h1, h2 := HistoryRow(1, 1, 1), HistoryRow(1, 2, 2);
    var s1, s2 := StatusRow(1, "pre_venta"), StatusRow(2, "en_venta");
    var db := Database([p], [h1, h2], [s1, s2]);
    assert !IsLatest(h1, db.history) by { assert h2 in db.history; }
    assert IsLatest(h2, db.history);
    assert "en_venta" in AllowedStatuses;
    assert ClausesHold([CityEquals], [Text("bogota")], p, s2);
    assert [s1, s2][1..] == [s2] && [s2][1..] == [] && [h1, h2][1..] == [h2] && [h2][1..] == [];
    assert !Selects(db, [CityEquals], [Text("bogota")], p, h1, s1);
    assert !Selects(db, [CityEquals], [Text("bogota")], p, h1, s2);
    assert StatusRows(db, [CityEquals], [Text("bogota")], p, h1, [s2]) == [];
    assert StatusRows(db, [CityEquals], [Text("bogota")], p, h1, db.statuses) == [];
    assert !Selects(db, [CityEquals], [Text("bogota")], p, h2, s1);
    assert StatusRows(db, [CityEquals], [Text("bogota")], p, h2, [s2]) == [Project(p, s2)];
    assert StatusRows(db, [CityEquals], [Text("bogota")], p, h2, db.statuses) == [Project(p, s2)];
    assert HistoryRows(db, [CityEquals], [Text("bogota")], p, [h2]) == [Project(p, s2)];
  }

  /** The same scenario for any statement whose clauses test exactly the
      filter city = "bogota", such as the one get_properties_filtered builds:
      it returns a single row, as en_venta. */
  lemma LaterStatusWinsForCityFilter(clauses: seq<Clause>, params: seq<Param>)
    requires forall p, s :: ClausesHold(clauses, params, p, s) <==> Admits(Filters(None, None, Some("bogota")), p, s)
    ensures var db := Database(
              [Property(1, "calle 1", "bogota", 100.0, "casa", 2020)],
              [HistoryRow(1, 1, 1), HistoryRow(1, 2, 2)],
              [StatusRow(1, "pre_venta"), StatusRow(2, "en_venta")]);
            Execute(db, clauses, params)
              == [ResultRow(1, "calle 1", "bogota", 100.0, "casa", "en_venta")]
  {
    var p := Property(1, "calle 1", "bogota", 100.0, "casa", 2020);
    var h1, h2 := HistoryRow(1, 1, 1), HistoryRow(1, 2, 2);
    var s1, s2 := StatusRow(1, "pre_venta"), StatusRow(2, "en_venta");
    var db := Database([p], [h1, h2], [s1, s2]);
    assert !IsLatest(h1, db.history) by { assert h2 in db.history; }
    assert IsLatest(h2, db.history);
    assert "en_venta" in AllowedStatuses;
    assert Admits(Filters(None, None, Some("bogota")), p, s2);
    assert ClausesHold(clauses, params, p, s2);
    assert [s1, s2][1..] == [s2] && [s2][1..] == [] && [h1, h2][1..] == [h2] && [h2][1..] == [];
    assert !Selects(db, clauses, params, p, h1, s1);
    assert !Selects(db, clauses, params, p, h1, s2);
    assert StatusRows(db, clauses, params, p, h1, [s2]) == [];
    assert StatusRows(db, clauses, params, p, h1, db.statuses) == [];
    assert !Selects(db, clauses, params, p, h2, s1);
    assert StatusRows(db, clauses, params, p, h2, [s2]) == [Project(p, s2)];
    assert StatusRows(db, clauses, params, p, h2, db.statuses) == [Project(p, s2)];
    assert HistoryRows(db, clauses, params, p, [h2]) == [Project(p, s2)];
    assert HistoryRows(db, clauses, params, p, db.history) == [Project(p, s2)];
    assert [p][1..] == [];
    assert PropertyRows(db, clauses, params, db.properties) == [Project(p, s2)];
  }

  /** GET /properties?city=bogota on the scenario's tables: the lookup returns
      exactly one row, with status en_venta. */
  method CityLookupScenario() returns (rows: seq<ResultRow>)
    ensures rows == [ResultRow(1, "calle 1", "bogota", 100.0, "casa", "en_venta")]
  {
    var db := Database(
      [Property(1, "calle 1", "bogota", 100.0, "casa", 2020)],
      [HistoryRow(1, 1, 1), HistoryRow(1, 2, 2)],
      [StatusRow(1, "pre_venta"), StatusRow(2, "en_venta")]);
    ghost var clauses, params;
    rows, clauses, params := GetPropertiesFiltered(Filters(None, None, Some("bogota")), db);
    LaterStatusWinsForCityFilter(clauses, params);
  }
}
