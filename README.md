# PythonMicroservices in Dafny

This project models three pieces of logic of the PythonMicroservices repository.

- **The block splitter** (`myBlocks` in my_array.py). It cuts an integer list at every 0 and sorts each piece. An empty piece is shown as `X`. The pieces are printed as digit strings separated by single spaces.
  - The function is annotated as returning a list, but it returns that string. The string is what is modelled.
  - The loop is a method (`Blocks.MyBlocks`), proved against the specification `Render(BlocksOf(arr))`.
- **The filtered-property lookup** (`get_properties_filtered` in mylib/queries.py). There are two parts:
  - The builder appends one `AND ... %s` clause and one parameter per filter present. It is a method (`Queries.BuildQuery`).
  - The meaning of the SQL statement is pure functions over three tables held as sequences (`Queries.Execute`). A row is kept when its status-history row is the property's latest (no later `update_date`) and its status name is `pre_venta`, `en_venta` or `vendido`.
- **The GET handler** (`RequestHandler.do_GET` in main.py).
  - It routes on the first `/`-separated segment of the stripped path.
  - It builds the filters step by step, rejecting a bad year with 400 (`Handler.ParseFilters`).
  - It answers 404 or 200 depending on the rows the lookup returns. Those rows are a parameter of `Handler.DoGet`.

Shared pieces:

- **Sequences:** `index`, `split`, `join`, `"".join` and `sorted`. Splitting the array at zeros and splitting the path at '/' are the same generic `Split`.
- **Decimal:** `str(int)` and `int(str)`.
- **Wrappers:** `Option` and `Result`.

## Model

| member | source | states |
|---|---|---|
| Blocks.MyBlocks | my_array.py:12-27 | The loop's output is the space-joined rendering of the blocks of the input. Splitting the output on ' ' gives one piece per zero plus one. |
| Blocks.RoundWithZero | my_array.py:18-25 | A round that finds its first zero at `i` appends the block of the piece before it and drops exactly `i + 1` elements. The blocks done plus the blocks of what is left still make up the blocks of the input, and one zero fewer remains. |
| Blocks.LastRound | my_array.py:19-23 | When no zero remains, the whole rest becomes the final block, which completes the blocks of the input. |
| Blocks.MakeBlocks | my_array.py:15-25 | One block per piece, in order: block `i` is the block of piece `i`. |
| Blocks.BlocksOf | my_array.py:15-25 | The specification of the loop: the blocks of the pieces between zeros. BlockCount, BlocksAreSortedPieces, BlocksHaveNoZero and ConservesNonZero state what it holds. |
| Blocks.MakeBlock | my_array.py:23 | A piece gives `X` exactly when it is empty. Otherwise it gives a non-empty, sorted permutation of the piece. |
| Blocks.BlockCount | my_array.py:15 | There is one block more than there are zeros in the input. |
| Blocks.BlocksAreSortedPieces | my_array.py:18-25 | The pieces joined by zeros give back the input, and no piece holds a zero. Block `i` is `X` exactly when piece `i` is empty; otherwise it is piece `i` sorted (sorted and a permutation). |
| Blocks.BlocksHaveNoZero | my_array.py:18-25 | No block contains 0, and every run block is non-empty and sorted. |
| Blocks.ConservesNonZero | my_array.py:18-25 | The values of all blocks together are, as a multiset, exactly the non-zero elements of the input. |
| Blocks.BlockText | my_array.py:27 | A block's text contains no space and is non-empty for `X` and for every non-empty run. |
| Blocks.Render | my_array.py:27 | The block texts joined by single spaces. RenderedPieces and RenderSpacing state what it holds. |
| Blocks.RenderedPieces | my_array.py:27 | Splitting the output on ' ' gives back exactly the block texts, one per block, so zeros + 1 of them. |
| Blocks.RenderSpacing | my_array.py:27 | The output is non-empty, neither starts nor ends with a space, and never holds two spaces in a row. |
| Sequences.Find | my_array.py:16-21 | The first index of `x` in `s`, or None (ValueError) exactly when `x` is absent. |
| Sequences.Split | main.py:31 | `str.split(sep)` on any sequence; it always gives at least one piece. SplitCount, SplitSepFree, JoinSplit and SplitJoin state what it gives. |
| Sequences.Join | my_array.py:27 | `sep.join(parts)`. JoinSplit and SplitJoin make it the inverse of Split; JoinSpacing and JoinMultiset state its shape and contents. |
| Sequences.Concat | my_array.py:27 | `"".join(parts)`. ConcatSepFree and ConcatMultiset state its contents. |
| Sequences.SplitAt | my_array.py:18-25 | With the first separator at `i`, the pieces are `s[..i]` followed by the pieces of `s[i+1..]`. |
| Sequences.SplitCount | my_array.py:15 | Splitting gives one piece more than there are separators. |
| Sequences.SplitSepFree | my_array.py:18 | No piece contains the separator. |
| Sequences.JoinSplit | my_array.py:18-25 | Joining the pieces with the separator restores the input. |
| Sequences.SplitJoin | my_array.py:27 | Splitting a join of separator-free parts restores the parts. |
| Sequences.JoinSpacing | my_array.py:27 | A join of non-empty, separator-free parts has no separator at either end and never two side by side. |
| Sequences.JoinMultiset | my_array.py:18-25 | Ignoring separators, a join holds exactly the elements of its parts. |
| Sequences.ConcatSepFree | my_array.py:27 | An element that no part holds is absent from the concatenation. |
| Sequences.ConcatMultiset | my_array.py:23 | Concatenating part-wise permutations gives permutations. |
| Sequences.Insert | my_array.py:23 | Inserting into a sorted list keeps it sorted and adds exactly the one element. |
| Sequences.Sort | my_array.py:23 | `sorted` returns an ascending permutation of its input. |
| Sequences.SplitHead | main.py:31-33 | The first piece equals a separator-free word exactly when the input is that word, or the word followed by a separator. |
| Sequences.PrefixThenSep | main.py:31-33 | With the first separator at `i`, the piece before it is the word exactly when the input is the word, or starts with the word and a separator. |
| Decimal.DigitChar | my_array.py:27 | The digit character for `d < 10` is a digit whose value is `d`. |
| Decimal.NatToString | my_array.py:27 | `str(n)` for `n >= 0` is a non-empty string of digits with no leading zero. |
| Decimal.IntToString | my_array.py:27 | `str(n)` is non-empty and made only of digits and '-'. |
| Decimal.ParseInt | main.py:42 | `int(s)` succeeds exactly when `s` is all digits, or '-' followed by at least one digit. |
| Decimal.DigitsValue | main.py:42 | The value `int()` gives a run of decimal digits, leading zeros allowed. NatDigitsRoundTrip and IntRoundTrip tie it to `str`. |
| Decimal.NatDigitsRoundTrip | my_array.py:27 | Reading back the digits of `str(n)` gives `n`. |
| Decimal.IntRoundTrip | main.py:42 | `int(str(n)) == n` for every integer. |
| Queries.BuildQuery | mylib/queries.py:27-39 | There is one parameter per clause. A clause is appended exactly when its filter is present, in the order status, year, city. The i-th parameter is the i-th clause's value, with the status wrapped as `%value%`. With no filters the statement is the base query and there are no parameters. |
| Queries.QueryText | mylib/queries.py:8-39 | The statement always starts with the whole base query; the appended clauses follow it. |
| Queries.Placeholders | mylib/queries.py:30-41 | The number of `%s` placeholders in a text. QueryPlaceholders states its value for every built statement. |
| Queries.BaseQueryHasNoPercent | mylib/queries.py:8-26 | The base statement contains no '%'. |
| Queries.PlaceholdersAppend | mylib/queries.py:30-38 | Placeholder counts add up over a concatenation whose left part does not end in '%'. |
| Queries.NoPercentNoPlaceholder | mylib/queries.py:8-26 | Text without '%' has no placeholder. |
| Queries.ClausePlaceholder | mylib/queries.py:30-38 | Each appended clause holds exactly one `%s`. |
| Queries.ClausesPlaceholders | mylib/queries.py:29-39 | The appended clauses together hold one `%s` per clause. |
| Queries.QueryPlaceholders | mylib/queries.py:27-41 | The final statement holds exactly as many `%s` placeholders as there are clauses, hence as parameters. |
| Queries.Like | mylib/queries.py:30-31 | SQL `LIKE` with `%` as the wildcard. LikeAll, LikeLiteralPrefix, LikeLeadingPercent and LikeIsSubstring state what it matches. |
| Queries.LikeAll | mylib/queries.py:30-31 | The pattern `%` matches every string. |
| Queries.LikeLiteralPrefix | mylib/queries.py:30-31 | A pattern that starts with literal text matches exactly the strings that start with that text and whose rest matches the rest of the pattern. |
| Queries.LikeLeadingPercent | mylib/queries.py:30-31 | A pattern that starts with '%' matches exactly when its rest matches some suffix. |
| Queries.LikeIsSubstring | mylib/queries.py:30-31 | For a status without '%', `name LIKE '%status%'` holds exactly when the name contains the status. |
| Queries.IsLatest | mylib/queries.py:19-24 | No history row of the same property has a strictly later date. LatestRowsTie and TiedLatestRowsBothReturned state its consequences. |
| Queries.Execute | mylib/queries.py:8-42 | The rows of the statement. ExecuteMembers states exactly which rows it returns, and ResultsAreCurrentAndAllowed and TiedLatestRowsBothReturned state properties of them. |
| Queries.StatusRowsMembers | mylib/queries.py:16-18 | A row comes from the status rows exactly when some status row passes the statement together with the given property and history row. |
| Queries.HistoryRowsMembers | mylib/queries.py:16-18 | A row comes from the history rows exactly when some history row and status row pass with the given property. |
| Queries.PropertyRowsMembers | mylib/queries.py:16-18 | A row comes from the property rows exactly when some (property, history, status) triple passes. |
| Queries.ExecuteMembers | mylib/queries.py:8-41 | A row is returned exactly when some property, history row and status row meet the joins, the latest-row condition, the allowed-status condition and every appended clause, and the row is their projection. |
| Queries.ResultsAreCurrentAndAllowed | mylib/queries.py:17-25 | Whatever the filters, every returned status is `pre_venta`, `en_venta` or `vendido`. Every returned property has a history row that no later row of it supersedes, so properties without history never appear. |
| Queries.LatestRowsTie | mylib/queries.py:19-24 | Two latest history rows of one property have the same date. |
| Queries.TiedLatestRowsBothReturned | mylib/queries.py:19-24 | Because the comparison is a strict '>', two history rows of a property that share its latest date and both pass are both returned, so the property appears at least twice. |
| Queries.BuiltClausesMeanFilters | mylib/queries.py:29-39 | Clauses and parameters shaped as the builder leaves them hold exactly when the status matches `%status%`, the year is equal and the city is equal, for the filters present. |
| Queries.GetPropertiesFiltered | mylib/queries.py:4-45 | The rows are exactly those of the statement the builder produced (`Execute` of the reported clauses and parameters, duplicates and counts included), and those clauses hold exactly when the present filters admit the row. So a row is returned exactly when some property, one of its latest history rows and that row's allowed status pass every present filter, and two such history rows of one property (a tie on its latest date) return it at least twice. |
| Queries.LaterStatusWins | mylib/queries.py:16-25 | A property recorded as `pre_venta` and later as `en_venta` is returned once, as `en_venta`. |
| Queries.LaterStatusWinsForCityFilter | mylib/queries.py:16-39 | For any statement whose clauses test exactly `city = bogota`, the pre_venta-then-en_venta tables give exactly one row, as en_venta. |
| Queries.CityLookupScenario | mylib/queries.py:4-45 | `get_properties_filtered({"city": "bogota"})` on those tables returns exactly one row, with status en_venta. |
| Handler.TrimLeft | main.py:31 | `lstrip`: the result is a suffix, everything removed is the strip character, and the result does not start with it. |
| Handler.TrimRight | main.py:31 | `rstrip`: the result is a prefix, everything removed is the strip character, and the result does not end with it. |
| Handler.Strip | main.py:31 | `strip`: the result is a slice with only the strip character around it, and it neither starts nor ends with that character. |
| Handler.StripWord | main.py:31 | Stripping '/' from '/' + word + rest, where rest is empty or starts with '/', leaves the word alone or followed by '/'. |
| Handler.FirstSegment | main.py:30-31 | `path.strip("/").split("/")[0]`; the segment never contains '/'. |
| Handler.PropertiesRoute | main.py:31-33 | The properties route is taken exactly when the stripped path is `properties` or starts with `properties/`, so later segments are ignored. |
| Handler.PropertiesPathsRoute | main.py:31-33 | `/properties`, `/properties/` and `/properties/<anything>` all reach the properties route. |
| Handler.InvalidEndpointForbidden | main.py:63-65 | `/invalid_endpoint` does not reach the properties route. |
| Handler.InvalidLiteral | main.py:42 | The message of the ValueError that `int()` raises for a text that is not an integer, with the text in single quotes. This is exact for texts with no `'`, no backslash and no control or non-printable character, and whose quoted form fits in 200 characters. |
| Handler.YearRejected | main.py:41-44 | A year is given whose first value is not an integer or lies outside [1900, 2100]. ParseFilters and DoGet fail exactly in this case. |
| Handler.ParseFilters | main.py:36-52 | The parse fails exactly when a year is given that does not parse, or that lies outside [1900, 2100]. The message is the `int()` error in the first case and `Year out of range (1900-2100)` in the second. On success, status and city are their first values or absent, and the year is present exactly when given and is the first value parsed. |
| Handler.YearExamples | main.py:41-44 | `year=1800` is rejected and `year=2020` is accepted. |
| Handler.DoGet | main.py:30-65 | A first segment other than `properties` gives 403 `Forbidden` without a lookup. A rejected year gives 400 with its message and no lookup. Otherwise the lookup gets the parsed filters, and the answer is 404 `No properties found` for no rows or 200 with the rows. The code is 400 exactly in the rejected-year case. |

## Left out

- The MySQL connection, its configuration and the cursor (mylib/queries.py:5-6, 41-44; database/db.py and database/config.py are not part of this model). The database is the value `Queries.Database`, and `Execute` gives the statement's relational meaning.
- The `DatabaseError` that `get_properties_filtered` can raise, which the handler does not catch (main.py:54). `Handler.DoGet` takes the fetched rows as the parameter `fetched` and reports in `lookup` which filters it would have passed.
- The row order of the statement. SQL promises none; `Execute` uses nested-loop join order.
- Queries.BaseWhere, Queries.Admits: string tests are exact, that is binary comparison. Under MySQL's default collation, `city = %s` (mylib/queries.py:38) and `s.name IN (...)` (mylib/queries.py:25) ignore case and accents. So a returned status may differ from the three listed names in case or accents, and a city may match a differently cased value. SQL NULL is not modelled either. A history row with a NULL `update_date` is never "later", so under `NOT EXISTS` it counts as latest. Every column here holds a value.
- MySQL `LIKE` details: `_` as a single-character wildcard, escapes and case-insensitive collation. Only '%' is a wildcard in `Queries.Like`, so a status value that itself contains '%' acts as a wildcard (`Queries.LikeIsSubstring` requires it has none).
- Where the `year` column lives. The schema does not say, so it is a field of `Queries.Property`. `update_date` is a number, and `price` is a `real` (no DECIMAL rounding).
- The statement text after the base query is held as a list of clauses (`Queries.QueryText` renders it). `Queries.BuildQuery` states the placeholder count through `Queries.QueryPlaceholders` rather than in its own contract.
- HTTP plumbing: `_set_headers`, `wfile.write`, JSON encoding (main.py:10-13, 50-65), `run_server` and `HTTPServer` (main.py:68-77).
- `urlparse` and `parse_qs`. `Handler.DoGet` receives the raw path component, which `urlparse` does not percent-decode, so `/propert%69es` is answered with 403. It also receives the name-to-values map that `parse_qs` has already decoded, so percent-decoding of the query and the dropping of blank values are not modelled.
- Decimal.ParseInt: Python's `int()` also accepts surrounding whitespace, a '+' sign, '_' between digits and non-ASCII digits. These are not modelled.
- Handler.InvalidLiteral, Handler.ParseFilters: the message for an unparsable year always puts the raw text between single quotes. CPython builds it with `%.200R`, that is `repr` cut to 200 characters. `repr` uses double quotes when the text holds `'` and no `"`. It escapes `'` when the text holds both. It escapes backslashes, tabs, newlines and other control or non-printable characters, which `parse_qs` can deliver (`%5C`, `%0A`). None of this, and not the 200-character cut, is modelled. For example, `year=%5C` gives `…: '\\'` in CPython and `…: '\'` here.
- Handler.ParseFilters: CPython 3.11 and later refuse by default to convert a year of more than 4300 digits, raising a ValueError ("Exceeds the limit …") that becomes a 400 with that message. The model parses any length, leading zeros included. So such a year is answered with `Year out of range (1900-2100)` when its value lies outside [1900, 2100]. A zero-padded year whose value lies inside it, such as 4400 zeros followed by 2020, is accepted and the lookup runs (200 or 404).
- Blocks.MyBlocks: CPython 3.11 and later refuse by default to convert an integer of more than 4300 digits with `str` (my_array.py:27), so `myBlocks` raises ValueError for such an element. `Decimal.IntToString` converts every integer, so the model always returns the string.
- The random array, the logging set-up and the log lines of my_array.py (lines 1-9, 30-31). Logging in main.py is left out too.

The list argument of `myBlocks` is modelled as an immutable `seq<int>`. This matches the source, which rebinds `arr` to new slices rather than mutating the caller's list.
