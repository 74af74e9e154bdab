# Verification of query, storage and codec code in Dafny

A model, in Dafny 4.11, of the code in this repository that decides what data means: the expression
rewriter, time-range extractor, column namer, result emitter and write path of InfluxDB 1.0.0; the MD5,
Base64 and linked-list code of FastDFS 5.01; the two hash functions and the object cache of memcached
1.4.21; and the percent codec of micro_httpd. `dafny verify dfyconfig.toml` checks everything.

What each part proves:

- **Reduce** (`InfluxqlAst`, `InfluxqlReduce`, `InfluxqlDenotation`, `InfluxqlMeaning`). Every reduction ends in a
  normal form and is idempotent, with the exact exception; it panics exactly on nil literals and on durations
  divided by small floats, and when it cannot is visible beforehand. Values are defined apart from it, with
  instants, durations and machine arithmetic: a reduced expression has the value of the expression in every world
  that agrees with the valuer, and it is a literal exactly when the valuer determines that value. It also keeps
  the value that `Eval` gives, with an if-and-only-if for each folding step and an example for each excluded
  family.
- **TimeRange** (`InfluxqlTimeCuts`, `InfluxqlTimeRange`). For every expression the range is the interval of the
  times that meet all its comparisons, but for one nanosecond at either end, and exactly when; for a conjunction
  these are the times it allows. What each literal means as a time, and when it is refused, is defined apart.
- **ColumnNames** (`InfluxqlColumns`). Generated names are unique and determined, the renaming loop ends, and
  exactly when the name of the time column is repeated.
- **Emitter** (`InfluxqlJoin`, `InfluxqlEmitter`). Repeated `Emit` calls deliver the ordered full outer join
  of the iterators, cut into well-formed chunks; the rows are described by index against the iterators' points,
  apart from the code, and shown to be unique.
- **Write path** (`CoordinatorWrite`, `CoordinatorMapShards`, `CoordinatorBuffer`). `WritePoints` is a state
  machine over its goroutines: safety in every interleaving, no blocked writer, a bound on the steps of every
  interleaving, rest only at the end, and a caller that can always give up on a timeout or a close. Shard mapping
  conserves points and order; the buffered writer conserves points also when flushes fail, and its batches do not
  depend on how the points arrive.
- **MD5** (`FastdfsMd5`). Streaming in any chunks equals one fold over the padded message, described byte by byte as in
  RFC 1321.
- **Base64** (`FastdfsBase64`, `FastdfsBase64Context`). Every character as in RFC 4648, round trips, exact lengths,
  line structure, and exactly when automatic padding works and when the terminator lands in front of the buffer.
- **Chain** (`FastdfsChain`, `FastdfsChainSorted`, `FastdfsChainList`). Pointer surgery on explicit memory,
  where freed nodes are gone; sortedness over every run, exactness of the early exit, queues and stacks.
- **Hashes** (`Words`, `MemcachedMurmur3`, `MemcachedJenkins`, `MemcachedJenkinsHash`, `MemcachedJenkinsState`).
  Bijectivity with explicit inverses, and what follows for keys of one length and of two; all reading paths of
  the Jenkins hash agree.
- **Object cache** (`MemcachedCache`). Each buffer is in exactly one place over every run.
- **Percent codec** (`MicroHttpdPercent`). In-place decoding, bounded encoding, and their round trip.

`Common` and `Arithmetic` hold small shared definitions and facts.

How the model represents things:

- 32-bit words are integers below 2^32 with explicit wrap-around; 64-bit integers wrap likewise. The union of
  words without common bits is their sum. Lengths and times are otherwise unbounded.
- Floats, regular expressions and time parsing are parameters: the theorems hold for any of them. The clock,
  the meta client, the store, iterators, `malloc` and the MD5 block transform are parameters too.
- A Go panic is a missing result. A C pointer into a list is an address in a map of allocated nodes.
- A goroutine's store call and the counter it updates are one step; `select` may choose any ready case.

Where the code and what it promises differ, the code is followed:

- `Reduce` panics on a duration divided by a float between -1 and 1 (other than 0), and when it meets a nil
  literal, which it makes itself for variables bound to integers (`PanicsExactly`, `ReduceTwiceExactly`,
  `ReduceTwiceFails`).
- `Reduce` and `Eval` disagree on integer division, string addition, comparisons of times or durations, and
  logical operators on non-booleans (`StepKeepsExactly` says exactly when).
- `MapShards` maps some points before the retention cutoff (`OldPointsDroppedExactly`).
- `BufferedPointsWriter` with capacity 0 never finishes a non-empty write (`LoopEndsExactly`).
- `TimeRange` reads a disjunction like a conjunction (`DisjunctionCoveredExactly`). At either end it may let one
  nanosecond too much through: for an equality, and for a strict comparison with the time at which the end
  already is, as in `time > 3 AND time > 4` (`RangeIsExact`, `RangeOfComparison`, `RangeOfStrictChain`).
- `base64_decode_auto` fails on unpadded text with separators unless these are a multiple of four characters
  (`AutoDecodeExactly`, `AutoDecodeByLength`, `AutoDecodeFails`).
- `base64_decode` writes its terminator in front of the output buffer when a text has more pads than bytes
  (`OverpaddedExactly`, `AutoOverpaddedExactly`, `PadsAloneOverpad`). The model has no memory there: `Decode`
  returns the negative index and writes nothing at it.
- `base64_set_line_separator` records a length beyond what it keeps for separators of more than fifteen
  characters (`SetLineSeparator`), and the encoder then copies what lies behind them (`EncodeEx`).
- `base64_get_encode_length` may announce a wrong length for line lengths that are not multiples of four, which
  `base64_init_ex` accepts (`EncodeLengthExactly`, `EncodeLengthFails`).
- The name of the implicit time column of `ColumnNames` may be repeated (`TimeNameRepeatsExactly`,
  `TimeNameMayRepeat`, `NumberRepeatsExactly`, `NumberMayRepeat`).

## Model

| member | source | states |
|---|---|---|
| InfluxqlReduce.LiteralsShape | influxdb-1.0.0/influxql/ast.go:4159-4392 | Which literal pairs fold, for every operator: a foldable pair gives a literal (or panics), any other pair stays the same node, an integer beside a float having become a float; what the literal is, FoldKeepsDenotation says |
| InfluxqlReduce.FoldShape | influxdb-1.0.0/influxql/ast.go:4107-4157 | What one folding step can return: an irreducible node over the same operands, one of the operands, or a literal that is not nil |
| InfluxqlReduce.FoldFixedExactly | influxdb-1.0.0/influxql/ast.go:4107-4157 | A binary node is left as it is if and only if it is irreducible |
| InfluxqlReduce.FoldPanicsExactly | influxdb-1.0.0/influxql/ast.go:4178-4228 | A folding step panics if and only if a duration is divided by a nonzero float that truncates to 0 |
| InfluxqlReduce.ReduceNodeNormal | influxdb-1.0.0/influxql/ast.go:4088-4447 | Every reduction that ends gives a normal form: no parentheses around a non-binary expression, no AND/OR with a boolean literal, no pair that still folds, nothing left that the valuer knows |
| InfluxqlReduce.PanicsExactly | influxdb-1.0.0/influxql/ast.go:4088-4447 | For every expression and valuer: reducing panics if and only if the expression holds a nil literal or, in some division, the operands reduce to a duration and a nonzero float that truncates to 0 |
| InfluxqlReduce.DurationOverFraction | influxdb-1.0.0/influxql/ast.go:4199-4208 | `Reduce` itself panics on a duration divided by a float if and only if the float is nonzero and truncates to 0 |
| InfluxqlReduce.ReducedKind | influxdb-1.0.0/influxql/ast.go:4107-4447 | A literal that an expression reduces to is of a kind that can be told beforehand from the expression and the valuer |
| InfluxqlReduce.ReduceTotal | influxdb-1.0.0/influxql/ast.go:4078-4447 | Without a nil literal, and with no division of what can be a duration by what can be a float (a harmless literal divisor excepted), `Reduce` never panics, under any valuer |
| InfluxqlReduce.NormalIsFixed | influxdb-1.0.0/influxql/ast.go:4088-4447 | A normal form is a fixed point of reduction, unless it holds a nil literal, which cannot be cloned |
| InfluxqlReduce.ReduceIdempotent | influxdb-1.0.0/influxql/ast.go:4078-4105 | The result of `Reduce` is a normal form without outer parentheses; reducing it again gives it back if and only if it holds no nil literal, and panics otherwise |
| InfluxqlReduce.ReduceTwiceIsOnce | influxdb-1.0.0/influxql/ast.go:4078-4105 | With a valuer that binds only values with a literal form, reducing twice is reducing once, for every expression |
| InfluxqlReduce.NilSurvivesExactly | influxdb-1.0.0/influxql/ast.go:4088-4447 | A nil literal is left in the result if and only if the expression has a variable bound to a value without a literal form and no folding step above it swallows that |
| InfluxqlReduce.ReduceTwiceExactly | influxdb-1.0.0/influxql/ast.go:4078-4105 | So, told from expression and valuer: reducing twice is reducing once if and only if no nil literal survives, and otherwise the second time panics |
| InfluxqlReduce.ReduceTwiceFails | influxdb-1.0.0/influxql/ast.go:4419-4447 | A variable bound to an integer reduces to a nil literal, and reducing that panics |
| InfluxqlReduce.NowValuersAreLiterate | influxdb-1.0.0/influxql/ast.go:4452-4467 | The nil valuer and `NowValuer` are such valuers |
| InfluxqlDenotation.WrapsExactly | influxdb-1.0.0/influxql/ast.go:4230-4272 | Integer folding keeps the number that fits 64 bits and differs from the exact result by a multiple of 2^64 |
| InfluxqlDenotation.TruncatesExactly | influxdb-1.0.0/influxql/ast.go:4199-4228 | Folded division leaves a remainder smaller than the divisor and with the sign of the dividend |
| InfluxqlDenotation.SaturatesExactly | influxdb-1.0.0/influxql/ast.go:4371-4374 | The difference of two times is the nearest duration there is |
| InfluxqlDenotation.FoldKeepsDenotation | influxdb-1.0.0/influxql/ast.go:4107-4392 | One folding step keeps the value of the node, for every pair of operands: times, durations, numbers, texts and truth values, against a definition of the operators of its own |
| InfluxqlDenotation.ReduceKeepsDenotation | influxdb-1.0.0/influxql/ast.go:4078-4447 | For every expression and valuer whose reduction does not panic: in every world that agrees with the valuer and its `now()`, the reduced expression has the value of the expression |
| InfluxqlDenotation.LiteralExactly | influxdb-1.0.0/influxql/ast.go:4078-4447 | `Reduce` gives a literal if and only if the valuer determines the value, and the literal is that value |
| InfluxqlDenotation.AnHourAgo | influxdb-1.0.0/influxql/ast.go:4362-4370 | `now() - 1h` reduces to the instant one hour before the time of the valuer |
| InfluxqlMeaning.StepKeepsExactly | influxdb-1.0.0/influxql/ast.go:4107-4392 | For all operands: a folding step keeps the value that `Eval` gives if and only if a condition on operator and operand kinds holds |
| InfluxqlMeaning.VarKeepsExactly | influxdb-1.0.0/influxql/ast.go:4419-4447 | Replacing a variable keeps its value if and only if the valuer does not know it or binds a boolean, float or string |
| InfluxqlMeaning.NodeKeepsExactly | influxdb-1.0.0/influxql/ast.go:4107-4157 | When both operands keep their value, a binary node keeps its own if and only if the folding step does |
| InfluxqlMeaning.ReduceKeepsMeaning | influxdb-1.0.0/influxql/ast.go:4078-4447 | For every expression whose logical operands are booleans and that has no integer division, string addition or comparison of times: `Reduce` panics exactly on a nil literal or a bad division, and otherwise `Eval(Reduce(e))` in an environment equals `Eval(e)` in the environment extended by the valuer |
| InfluxqlMeaning.SafeReduceKeepsMeaning | influxdb-1.0.0/influxql/ast.go:4078-4447 | The same with a condition that is visible before reducing: without nil literals and with safe divisions `Reduce` returns, and keeps the value |
| InfluxqlMeaning.ConstantFoldingKeepsMeaning | influxdb-1.0.0/influxql/ast.go:3887-4066 | Without a valuer, under that condition: `Reduce(e)` returns and `Eval(Reduce(e), m) == Eval(e, m)` |
| InfluxqlMeaning.DivisionChangesMeaning | influxdb-1.0.0/influxql/ast.go:4242-4246 | The exclusion is needed: 1 / 2 reduces to a float and evaluates to the integer 0 |
| InfluxqlMeaning.ConcatenationChangesMeaning | influxdb-1.0.0/influxql/ast.go:4342-4352 | The exclusion is needed: "a" + "b" reduces to "ab" and evaluates to nil |
| InfluxqlMeaning.DurationComparisonChangesMeaning | influxdb-1.0.0/influxql/ast.go:4178-4205 | The exclusion is needed: 1s = 1s reduces to true and evaluates to nil |
| InfluxqlMeaning.ConjunctionChangesMeaning | influxdb-1.0.0/influxql/ast.go:4107-4140 | The exclusion is needed: x AND true reduces to x, also for an integer x, where it evaluates to nil |
| InfluxqlTimeRange.TimeExprValue | influxdb-1.0.0/influxql/ast.go:3629-3671 | An error comes with the zero time, and a time that is read fits 64 bits |
| InfluxqlTimeRange.ReadingExactly | influxdb-1.0.0/influxql/ast.go:3629-3671 | For every literal beside a time: a time or date counts as its instant within the bounds and is refused as overflow or underflow outside, durations and numbers count as nanoseconds, any other literal is refused |
| InfluxqlTimeRange.SideExactly | influxdb-1.0.0/influxql/ast.go:3546-3571 | A node is read as a comparison of the time on its left, else of the time on its right, against what that literal means, and refused for the literal's own reason |
| InfluxqlTimeRange.FirstErrorExactly | influxdb-1.0.0/influxql/ast.go:3544-3603 | The error reported is the first refusal among those of the nodes in walking order |
| InfluxqlTimeCuts.RunningExactly | influxdb-1.0.0/influxql/ast.go:3573-3600 | Over every sequence of comparisons, an end stops where they put it together or one nanosecond short; the latter if and only if a strict comparison met the end at its own time, or an equality was not passed by the upper end, and no later comparison moved the end further |
| InfluxqlTimeRange.RangeVisitor.Visit | influxdb-1.0.0/influxql/ast.go:3546-3600 | One comparison is added in its place to those that decide each end, the ends being a function of these; the first error stays |
| InfluxqlTimeRange.RangeVisitor.Walk | influxdb-1.0.0/influxql/ast.go:3680-3692 | The walk reports the first error in the expression and adds all its comparisons in walking order, for every expression |
| InfluxqlTimeRange.BoundsAreExact | influxdb-1.0.0/influxql/ast.go:3544-3603 | For every expression, the meet of the intervals of its comparisons holds exactly the times that meet every one of them, wherever they stand, each literal read as ReadingExactly says |
| InfluxqlTimeRange.ConjunctionIsInterval | influxdb-1.0.0/influxql/ast.go:3544-3603 | The times that a conjunction allows are exactly those in the meet of its comparisons' intervals, in whatever order they stand and with the time on either side |
| InfluxqlTimeRange.EndsOfBounds | influxdb-1.0.0/influxql/ast.go:3544-3603 | For every expression, each end of the range is that of the meet or one nanosecond outside, and which of the two follows from the order of its comparisons |
| InfluxqlTimeRange.RangeIsExact | influxdb-1.0.0/influxql/ast.go:3544-3603 | For every expression, the range is exactly the times that meet all its comparisons if and only if no comparison that decides an end slips, or the ends have crossed |
| InfluxqlTimeRange.SpacedRangeIsExact | influxdb-1.0.0/influxql/ast.go:3573-3600 | It is exact without equalities if comparisons that bound the same end are at least two nanoseconds apart |
| InfluxqlTimeRange.TimeRange | influxdb-1.0.0/influxql/ast.go:3544-3603 | For every expression: the first refusal in walking order, or both ends, fixed by the comparisons in walking order; the range covers every time that meets all comparisons, a nanosecond inside it every time does, and it is exact if and only if no deciding comparison slips; for a conjunction these are the times it allows |
| InfluxqlTimeRange.RangeOfComparison | influxdb-1.0.0/influxql/ast.go:3575-3600 | A single comparison with any literal, on either side of the operator: the literal's refusal is the error; otherwise the range is exactly the times that compare with its instant, and for an equality also the nanosecond after |
| InfluxqlTimeRange.RangeOfStrictChain | influxdb-1.0.0/influxql/ast.go:3576-3579 | Without an equality: `time > 3 AND time > 4` gets the lower end 4, which it does not allow |
| InfluxqlTimeRange.DisjunctionCoveredExactly | influxdb-1.0.0/influxql/ast.go:3544-3603 | The range returned for a disjunction of conjunctions covers the times it allows if and only if the bounds of each conjunction that allows any lie within it |
| InfluxqlTimeRange.RangeOfDisjunction | influxdb-1.0.0/influxql/ast.go:3544-3603 | `time < 5 OR time > 10` gets a range with nothing in it |
| InfluxqlColumns.ColumnFields | influxdb-1.0.0/influxql/ast.go:1218-1233 | The columns are the fields in order, each `top` or `bottom` followed by the variables among its further arguments |
| InfluxqlColumns.OwnNameExactly | influxdb-1.0.0/influxql/ast.go:2955-2975 | The name of every expression by the names of its parts: a variable or call gives its own, parentheses that of the inside, an operator joins those of the operands that mention any with an underscore, other expressions have none |
| InfluxqlColumns.RefsOfExactly | influxdb-1.0.0/influxql/ast.go:1222-1229 | A further argument of `top` or `bottom` adds a column if and only if it is a variable, in order |
| InfluxqlColumns.DecimalExactly | influxdb-1.0.0/influxql/ast.go:1268 | The number in a generated name is written in decimal: digits only, of that value, without a leading zero |
| InfluxqlColumns.Resolve | influxdb-1.0.0/influxql/ast.go:1267-1276 | The renaming loop ends, at the first number from the count on whose name is free |
| InfluxqlColumns.ResolveAliases | influxdb-1.0.0/influxql/ast.go:1250-1256 | Every alias is in its place and the map has exactly the aliases |
| InfluxqlColumns.ResolveNames | influxdb-1.0.0/influxql/ast.go:1258-1280 | Columns without an alias get their own name if it is free and otherwise that name with the first free number, and no name that is given already |
| InfluxqlColumns.ColumnNames | influxdb-1.0.0/influxql/ast.go:1216-1282 | One name per column, after the time column; aliases are kept; a generated name is the column's own or has the first free number, and is unlike all earlier names and all aliases |
| InfluxqlColumns.NamingUnique | influxdb-1.0.0/influxql/ast.go:1216-1282 | That description leaves no freedom: the columns determine their names |
| InfluxqlColumns.GeneratedNamesAreUnique | influxdb-1.0.0/influxql/ast.go:1259-1280 | A generated name differs from the name of every other column |
| InfluxqlColumns.NamesDistinctExactly | influxdb-1.0.0/influxql/ast.go:1216-1282 | All columns have different names if and only if the aliases differ |
| InfluxqlColumns.NameRepeatsExactly | influxdb-1.0.0/influxql/ast.go:1236-1282 | For every name: it is given to a column if and only if a column's alias or own name is that name, or a column whose own name is taken has that name with the first free number |
| InfluxqlColumns.NumberRepeatsExactly | influxdb-1.0.0/influxql/ast.go:1259-1280 | Name `x_n`, where no column is called `x` with a number, is given if and only if `x` is wanted more than n times |
| InfluxqlColumns.NumberMayRepeat | influxdb-1.0.0/influxql/ast.go:1236-1280 | `SELECT time AS value_1, value, value` repeats the name of its time column, which no field asks for |
| InfluxqlColumns.TimeIsNotNumbered | influxdb-1.0.0/influxql/ast.go:1267-1270 | No numbered name is "time" |
| InfluxqlColumns.TimeNameRepeatsExactly | influxdb-1.0.0/influxql/ast.go:1236-1245 | The implicit time column is not protected: its default name is repeated if and only if some column's alias or own name is "time" |
| InfluxqlColumns.TimeNameMayRepeat | influxdb-1.0.0/influxql/ast.go:1236-1256 | `SELECT value AS time` does repeat it |
| InfluxqlJoin.JoinIsOuterJoin | influxdb-1.0.0/influxql/emitter.go:45-187 | On ordered iterators, taking the first buffered key again and again gives the full outer join: one line per key in any iterator, in order, with each iterator's value or null and the tags of a point with that key |
| InfluxqlJoin.OuterJoinUnique | influxdb-1.0.0/influxql/emitter.go:45-187 | That description leaves no freedom: where points with one tag identifier have the same tags, any two such line sequences are equal |
| InfluxqlJoin.StrLessExactly | influxdb-1.0.0/influxql/emitter.go:119-131 | Names and tag sets compare as Go compares strings: a proper prefix, or the first difference decides |
| InfluxqlJoin.KeyOrderExactly | influxdb-1.0.0/influxql/emitter.go:119-131 | Keys are ordered by time, then name, then tags, and in descending order all three turn round |
| InfluxqlJoin.JoinIsListing | influxdb-1.0.0/influxql/emitter.go:45-187 | The join lists each key of the streams once and in order; the entry has the name, tags and time of its key and, by position, the value that each stream has there, or null |
| InfluxqlJoin.ListingUnique | influxdb-1.0.0/influxql/emitter.go:45-187 | Only one sequence of entries is such a listing |
| InfluxqlJoin.RowsFlatten | influxdb-1.0.0/influxql/emitter.go:74-86 | Cutting lines into rows loses, adds and reorders nothing, for any chunk size |
| InfluxqlJoin.RowsWellChunked | influxdb-1.0.0/influxql/emitter.go:74-86 | No row is longer than a positive chunk size, none is empty, and a series goes on in the next row only after a full one |
| InfluxqlJoin.ChunksUnique | influxdb-1.0.0/influxql/emitter.go:74-86 | Only one cutting into rows is of that form: what the rows hold determines them |
| InfluxqlEmitter.Emitter.ReadIterator | influxdb-1.0.0/influxql/emitter.go:191-225 | Reads one iterator's next point, its end or an error; no point is lost and the other iterators stay |
| InfluxqlEmitter.Emitter.LoadBuf | influxdb-1.0.0/influxql/emitter.go:93-135 | Fills the empty slots and returns the least buffered time, name and tags in the emitter's direction; nothing is lost on an error |
| InfluxqlEmitter.Emitter.ReadAt | influxdb-1.0.0/influxql/emitter.go:150-187 | Takes exactly the buffered points at the given key and returns the time, unless omitted, followed by their values in the order of the iterators, null for the others; JoinIsListing says which position holds what |
| InfluxqlEmitter.Emitter.NextLine | influxdb-1.0.0/influxql/emitter.go:52-72 | The two steps at the start of each pass take the first line of the join of everything unread, and consume at least one point |
| InfluxqlEmitter.Emitter.PlaceLine | influxdb-1.0.0/influxql/emitter.go:74-86 | A line goes to the open row, or that row is returned and another opened |
| InfluxqlEmitter.Emitter.Pass | influxdb-1.0.0/influxql/emitter.go:52-87 | A pass of the loop ends the call with an error, the end or a row, or has consumed at least one point |
| InfluxqlEmitter.Emitter.Emit | influxdb-1.0.0/influxql/emitter.go:45-88 | Each call returns the next row of the rest, nothing only when nothing is left, and loses nothing on an error |
| InfluxqlEmitter.Drain | influxdb-1.0.0/coordinator/statement_executor.go:455-495 | Calling `Emit` until it returns no row delivers the rest, or up to an error the first part of it |
| InfluxqlEmitter.EmissionUnique | influxdb-1.0.0/influxql/emitter.go:29-187 | Only one sequence of rows lists the keys of the streams as JoinIsListing describes, in well-formed chunks |
| InfluxqlEmitter.EmitJoin | influxdb-1.0.0/influxql/emitter.go:29-187 | A whole run over ordered iterators delivers exactly that sequence of rows: every value in its place, described by index against the streams |
| CoordinatorWrite.StepKeepsInvariant | influxdb-1.0.0/coordinator/points_writer.go:292-371 | Every step of a writer, the caller, the timer or close keeps the invariant that ties channel, received reports and counters to the writers' states |
| CoordinatorWrite.RunKeepsInvariant | influxdb-1.0.0/coordinator/points_writer.go:292-371 | So does every interleaving of steps |
| CoordinatorWrite.SuccessMeansAllWritten | influxdb-1.0.0/coordinator/points_writer.go:318-335 | In every interleaving, nil is returned only if every writer has finished without an error; WriteOK then counts all shards and WriteErr none |
| CoordinatorWrite.SuccessMeansStored | influxdb-1.0.0/coordinator/points_writer.go:340-371 | Nil is returned only if for each shard the store has accepted a write, the first or the retried one |
| CoordinatorWrite.WriterFollowsSource | influxdb-1.0.0/coordinator/points_writer.go:340-371 | In every interleaving, each writer has made exactly the store calls of `writeToShard` up to where it is: one write, then for a missing shard its creation, then one retry; its report is the outcome the source returns |
| CoordinatorWrite.WritersNeverBlock | influxdb-1.0.0/coordinator/points_writer.go:293-298 | The channel never holds more than its capacity, and a writer with a report always finds room, also after an early return |
| CoordinatorWrite.CountersAreExact | influxdb-1.0.0/coordinator/points_writer.go:343-371 | Each writer that has come to a report has added one to WriteOK or WriteErr, as its report says; WriteTimeout is 1 exactly if the result is a timeout |
| CoordinatorWrite.NeverStuck | influxdb-1.0.0/coordinator/points_writer.go:293-335 | From every state reached, also after an early return, the run can go on until the caller has returned and every writer has finished |
| CoordinatorWrite.StepGetsOn | influxdb-1.0.0/coordinator/points_writer.go:292-371 | Every step of a writer or the caller lowers the work that is left; closing and the timer keep it |
| CoordinatorWrite.EveryRunIsBounded | influxdb-1.0.0/coordinator/points_writer.go:292-371 | No interleaving of a write to n shards has more than 6 n + 2 steps of the writers and the caller |
| CoordinatorWrite.RestsExactlyWhenDone | influxdb-1.0.0/coordinator/points_writer.go:292-371 | None of them can take a step if and only if the caller has returned and every writer has finished |
| CoordinatorWrite.FailuresHaveACause | influxdb-1.0.0/coordinator/points_writer.go:320-334 | A returned shard error is one that a writer has reported; a timeout needs an expired timer and a failed write a close |
| CoordinatorWrite.CallerCanGiveUp | influxdb-1.0.0/coordinator/points_writer.go:320-327 | In every reachable state in which the caller waits for a report: once the timer has expired, one step of the caller alone returns the timeout and counts it; after a close, the failed write; and both can happen at any time |
| CoordinatorWrite.CallerMovesOnReports | influxdb-1.0.0/coordinator/points_writer.go:318-335 | Without either the caller moves only on a report, which it takes from the front of the channel: on with a good one, out with the error of a bad one |
| CoordinatorWrite.CallerTakesReports | influxdb-1.0.0/coordinator/points_writer.go:318-335 | A waiting caller can take any report that is there, and after the last one returns success |
| CoordinatorWrite.StoreAnswersFreely | influxdb-1.0.0/coordinator/points_writer.go:340-371 | A call of the store can have any outcome, exactly when the writer is at that call |
| CoordinatorMapShards.TruncateIsFloor | influxdb-1.0.0/coordinator/points_writer.go:236 | `Time.Truncate` gives the last multiple of the group duration, counted from the zero time, that is not after the time |
| CoordinatorMapShards.TooOldExactly | influxdb-1.0.0/coordinator/points_writer.go:225-232 | With a retention period a point is too old if and only if that period has passed since its time; without one, only before the least time that can be stored |
| CoordinatorMapShards.HomeExactly | influxdb-1.0.0/coordinator/points_writer.go:249-258 | A point goes to the shard at the place that its hash has, counted around its group; it is dropped if and only if its range was not asked for or its group has no shard |
| CoordinatorMapShards.ShardMapping.MapPoint | influxdb-1.0.0/coordinator/points_writer.go:128-136 | Appends the point to the list of one shard and records the shard; other lists stay |
| CoordinatorMapShards.PointsWriter.TimeRanges | influxdb-1.0.0/coordinator/points_writer.go:231-237 | The ranges asked for are exactly those of the points that are not too old |
| CoordinatorMapShards.PointsWriter.CreateGroups | influxdb-1.0.0/coordinator/points_writer.go:241-247 | Succeeds if and only if every range gets a group, in whatever order they are asked for |
| CoordinatorMapShards.PointsWriter.MapShards | influxdb-1.0.0/coordinator/points_writer.go:207-261 | Fails exactly on a failed lookup, a missing policy or a group that cannot be had; otherwise each shard's list is the request's points that belong to it, both maps have the same keys, and WriteDropped grows by the points without a shard |
| CoordinatorMapShards.ListedInOrder | influxdb-1.0.0/coordinator/points_writer.go:249-259 | A shard's list has exactly the points that belong there, each once and in request order |
| CoordinatorMapShards.RecentPointsAreMapped | influxdb-1.0.0/coordinator/points_writer.go:218-237 | Every point at or after the cutoff is mapped |
| CoordinatorMapShards.DroppedExactly | influxdb-1.0.0/coordinator/points_writer.go:231-259 | A point is dropped if and only if no point at or after the cutoff shares its range |
| CoordinatorMapShards.OldPointsDroppedExactly | influxdb-1.0.0/coordinator/points_writer.go:218-259 | All points before the cutoff are dropped if and only if none of them shares its range with a recent point |
| CoordinatorMapShards.MappedPointsAreNearlyRecent | influxdb-1.0.0/coordinator/points_writer.go:218-259 | An old point that is mapped is less than one range older than the cutoff |
| CoordinatorMapShards.AnOldPointIsMapped | influxdb-1.0.0/coordinator/points_writer.go:218-259 | Such a point exists: the code's own comment admits the edge case |
| CoordinatorMapShards.MappedPlusDropped | influxdb-1.0.0/coordinator/points_writer.go:249-260 | Mapped points and dropped points together are the request, for every request |
| CoordinatorBuffer.BufferedPointsWriter.Flush | influxdb-1.0.0/coordinator/statement_executor.go:1077-1094 | The buffer is delivered as one batch and emptied, or kept when that fails; an empty buffer is not delivered |
| CoordinatorBuffer.BufferedPointsWriter.WritePointsInto | influxdb-1.0.0/coordinator/statement_executor.go:1043-1074 | Delivered and buffered points are the accepted ones in order, also when a flush fails; after success with points the buffer is below its capacity; every batch is as long as the buffer; a wrong destination changes nothing |
| CoordinatorBuffer.RunCalls | influxdb-1.0.0/coordinator/statement_executor.go:1043-1094 | Over every run of calls and failures: delivered plus buffered is everything accepted so far; each successful call took all its points and leaves the buffer below its capacity, unless it was full before and there was nothing to write |
| CoordinatorBuffer.RoomThroughout | influxdb-1.0.0/coordinator/statement_executor.go:1043-1094 | If all calls of a run succeed and it starts below the capacity, the buffer is below it after each of them |
| CoordinatorBuffer.LoopEndsExactly | influxdb-1.0.0/coordinator/statement_executor.go:1049-1071 | The copying loop ends if and only if there is nothing to copy or the capacity is not 0 |
| CoordinatorBuffer.BatchesAreDetermined | influxdb-1.0.0/coordinator/statement_executor.go:1049-1071 | Full batches and a shorter rest are determined by the points they hold |
| CoordinatorBuffer.WritersAgree | influxdb-1.0.0/coordinator/statement_executor.go:1049-1071 | Two writers of one capacity that have accepted the same points have delivered the same batches and buffer the same rest |
| CoordinatorBuffer.DivideTwoWays | influxdb-1.0.0/coordinator/statement_executor.go:1029-1071 | However the same points are divided into calls, the same batches reach the destination |
| FastdfsMd5.EncodeWordIsLittleEndian | fastdfs-5.01/common/md5.c:260-270 | A word is written with its least significant byte first |
| FastdfsMd5.EncodeStateIsOutput | fastdfs-5.01/common/md5.c:152 | Bytes 0 to 3 of the output are word A, low byte first, then B, C and D |
| FastdfsMd5.PaddedIsPadding | fastdfs-5.01/common/md5.c:139-150 | Sections 3.1 and 3.2 of RFC 1321 by index: the message, the byte 0x80, fewer than 64 zeros, and the bit length, low word first, to a multiple of 64 bytes |
| FastdfsMd5.DigestIsDigest | fastdfs-5.01/common/md5.c:77-158 | The digest is the output of a course of states, one for each block of the padded message, from the initial bytes of section 3.3 |
| FastdfsMd5.CountersAdvance | fastdfs-5.01/common/md5.c:101-104 | The carry test and the shifted length keep the two counter words equal to the bit length modulo 2^64 |
| FastdfsMd5.CounterIndex | fastdfs-5.01/common/md5.c:98-99 | The low counter word alone gives the number of buffered bytes |
| FastdfsMd5.LoopGuardExact | fastdfs-5.01/common/md5.c:116-117 | The block loop's 32-bit comparison is right for every position if and only if buffered and new bytes are fewer than 2^32 |
| FastdfsMd5.Md5Context.Update | fastdfs-5.01/common/md5.c:94-127 | The message grows by the chunk; state, counters and buffer stand for its whole blocks, its length and its rest |
| FastdfsMd5.Md5Context.Pad | fastdfs-5.01/common/md5.c:139-150 | Padding and length bring the message to the padded form of sections 3.1 and 3.2 of RFC 1321 |
| FastdfsMd5.Md5Context.Final | fastdfs-5.01/common/md5.c:134-158 | Returns the digest of the whole message, byte by byte as DigestIsDigest describes it, and clears the context |
| FastdfsMd5.DigestOf | fastdfs-5.01/common/md5.c:77-158 | However a message is cut into chunks of at most 2^32 - 64 bytes, the digest is the fold of the block transform over the padded message, with padding, initial words and output pinned byte by byte |
| FastdfsBase64.QuadExactly | fastdfs-5.01/common/base64.c:126-255 | Three bytes give their four groups of six bits, high bits first |
| FastdfsBase64.GroupsExactly | fastdfs-5.01/common/base64.c:126-255 | Every group of characters for every input: four letters for three bytes; at the end two or three letters, with pads after them if wanted |
| FastdfsBase64.DecodeEncoded | fastdfs-5.01/common/base64.c:126-392 | Decoding a padded encoding gives the message back, for every message, every line length and separator and every consistent pair of tables |
| FastdfsBase64.AutoDecodeExactly | fastdfs-5.01/common/base64.c:257-307 | An unpadded encoding is decoded by `base64_decode_auto` if and only if its separators are a multiple of four characters, none in particular; otherwise a bad length is reported |
| FastdfsBase64.SeparatorsClosed | fastdfs-5.01/common/base64.c:178-192 | How many separator characters an encoding has, from the lengths of message, line and separator, for every line length |
| FastdfsBase64.AutoDecodeByLength | fastdfs-5.01/common/base64.c:257-307 | So these three lengths decide whether `base64_decode_auto` gives the message back |
| FastdfsBase64.AutoDecodeFails | fastdfs-5.01/common/base64.c:257-307 | Four bytes on lines of four characters with a one-character separator are not decoded |
| FastdfsBase64.OverpaddedExactly | fastdfs-5.01/common/base64.c:376-389 | The index at which `base64_decode` puts its terminator is negative if and only if the digits are a multiple of four and the pads outnumber the bytes, that is three times the letters |
| FastdfsBase64.AutoOverpaddedExactly | fastdfs-5.01/common/base64.c:257-307 | The same for `base64_decode_auto`, in terms of the text before it is filled up |
| FastdfsBase64.PadsAloneOverpad | fastdfs-5.01/common/base64.c:257-392 | Four pads do this, and for `base64_decode_auto` a single one |
| FastdfsBase64.EncodedIsLines | fastdfs-5.01/common/base64.c:126-255 | For every line length other than 0, the text is the groups in lines of as many groups as fit, with separators between lines only and none at the end; where no group fits, each has a line of its own after a separator |
| FastdfsBase64.EncodeLengthExactly | fastdfs-5.01/common/base64.c:97-117 | For every line length, the padded encoder writes as many characters as `base64_get_encode_length` says if and only if the separator is empty or the numbers of line breaks agree |
| FastdfsBase64.BreaksAgreeExactly | fastdfs-5.01/common/base64.c:97-117 | From four characters on these numbers are (groups - 1) / (length / 4) and (4 groups - 1) / length |
| FastdfsBase64.EncodeLengthExact | fastdfs-5.01/common/base64.c:97-117 | They agree, and so do the lengths, for every message without a line length or with one that is a multiple of four |
| FastdfsBase64.EncodeLengthFails | fastdfs-5.01/common/base64.c:55-117 | For nine bytes in lines of six characters 13 characters are announced and 14 written |
| FastdfsBase64Context.LetterExactly | fastdfs-5.01/common/base64.c:68-86 | The alphabet is that of RFC 4648, with the two configurable characters last |
| FastdfsBase64Context.ConsistentExactly | fastdfs-5.01/common/base64.c:55-95 | The tables built by `base64_init_ex` are consistent if and only if no letter, pad or separator character is used twice |
| FastdfsBase64Context.Base64Context.InitEx | fastdfs-5.01/common/base64.c:55-95 | The letter table, and its reverse with the last of equal letters and the pad winning |
| FastdfsBase64Context.Base64Context.SetLineLength | fastdfs-5.01/common/base64.c:36-39 | Rounds to a multiple of four, downward for a length that is not negative |
| FastdfsBase64Context.Base64Context.SetLineSeparator | fastdfs-5.01/common/base64.c:48-53 | Keeps at most fifteen characters but records the whole length; the two agree if and only if the separator has at most fifteen |
| FastdfsBase64Context.Base64Context.GetEncodeLength | fastdfs-5.01/common/base64.c:97-117 | The formula, with the recorded length of the separator; for a legal line length and a separator that fits it is the length of every padded encoding of that many bytes |
| FastdfsBase64Context.Base64Context.EncodeEx | fastdfs-5.01/common/base64.c:126-255 | Writes exactly the encoding and a terminating zero, padded or with the padding stripped; a separator that is too long for its field is continued with what lies behind the field |
| FastdfsBase64Context.Base64Context.Decode | fastdfs-5.01/common/base64.c:309-392 | For every text: fails exactly on a number of digits that is not a multiple of four; otherwise writes exactly what the text decodes to, and the returned length, which is the terminator's index, is negative exactly if the text is overpadded |
| FastdfsBase64Context.Base64Context.DecodeAuto | fastdfs-5.01/common/base64.c:257-307 | The same for the text filled up with pads; a long text also needs the extra buffer |
| FastdfsBase64Context.RoundTrip | fastdfs-5.01/common/base64.c:97-392 | End to end: a buffer of the announced length takes the encoding, and decoding it gives the message back |
| FastdfsChain.InsertedIsChain | fastdfs-5.01/common/chain.c:121-163 | A fresh node linked in at any place leaves an acyclic list of distinct nodes that owns all memory in use |
| FastdfsChain.CutIsChain | fastdfs-5.01/common/chain.c:181-229 | Bypassing and freeing a stretch of nodes leaves such a list and frees exactly that stretch |
| FastdfsChainList.ChainList.InsertNodePrior | fastdfs-5.01/common/chain.c:64-88 | The new element is first; without memory nothing changes |
| FastdfsChainList.ChainList.AppendNode | fastdfs-5.01/common/chain.c:90-119 | The new element is last and `tail` is its node |
| FastdfsChainList.ChainList.InsertNodeAsc | fastdfs-5.01/common/chain.c:121-163 | The new element stands after the leading elements that compare below it |
| FastdfsChainList.ChainList.AddNode | fastdfs-5.01/common/chain.c:165-179 | Adds as the kind of chain says |
| FastdfsChainList.ChainList.DeleteNodeEx | fastdfs-5.01/common/chain.c:181-199 | Takes one node out, keeps `head` and `tail` right, and frees its data and the node |
| FastdfsChainList.ChainList.DeleteToNodePrevious | fastdfs-5.01/common/chain.c:201-229 | Takes out and frees, in order, exactly the nodes between two given ones |
| FastdfsChainList.ChainList.ChainPopHead | fastdfs-5.01/common/chain.c:231-252 | Returns the first element and takes it out without freeing its data |
| FastdfsChainList.ChainList.ChainCount | fastdfs-5.01/common/chain.c:254-268 | The number of elements |
| FastdfsChainList.ChainList.ChainDestroy | fastdfs-5.01/common/chain.c:33-52 | Frees every node and its data once, in order; no memory stays in use |
| FastdfsChainList.ChainList.DeleteNode | fastdfs-5.01/common/chain.c:270-314 | The chain, the freed data and the count are those of the scan that may stop early |
| FastdfsChainList.ChainList.PerformAll | fastdfs-5.01/common/chain.c:165-324 | Over every run of operations the linked list stays valid and holds what the run on sequences gives |
| FastdfsChainSorted.InsertedAscending | fastdfs-5.01/common/chain.c:121-163 | Insertion keeps a chain ascending, for every total preorder |
| FastdfsChainSorted.EarlyExitIsExact | fastdfs-5.01/common/chain.c:288-311 | On an ascending chain the scan that stops early removes what the full scan removes |
| FastdfsChainSorted.DeletionIsExact | fastdfs-5.01/common/chain.c:270-324 | On an ascending chain `deleteAll` leaves exactly the elements that differ and counts the others; `deleteOne` takes out the first match, or nothing without one |
| FastdfsChainSorted.ScanKeepsOrder | fastdfs-5.01/common/chain.c:270-314 | What a deletion leaves keeps its order, on any chain |
| FastdfsChainSorted.RunBalances | fastdfs-5.01/common/chain.c:165-324 | Over every run on a chain of any kind, the elements added are those in the chain and those taken out |
| FastdfsChainSorted.RunKeepsAscending | fastdfs-5.01/common/chain.c:165-324 | Over every run a sorted chain stays ascending |
| FastdfsChainSorted.EveryDeletionIsExact | fastdfs-5.01/common/chain.c:165-324 | After every run on a sorted chain, a deletion with early exit equals one with a full scan |
| FastdfsChainSorted.RunIsQueue | fastdfs-5.01/common/chain.c:165-252 | Over every run of additions and pops a chain that appends is a queue: what came out and what is left, in this order, is what went in |
| FastdfsChainSorted.RunIsStack | fastdfs-5.01/common/chain.c:165-252 | A chain that inserts first is a stack: what is added comes out in reverse, and what was there stays |
| MemcachedMurmur3.ScrambleBijective | memcached-1.4.21/murmur3_hash.c:90-92 | Mixing a block word is a bijection, with an explicit inverse |
| MemcachedMurmur3.FmixBijective | memcached-1.4.21/murmur3_hash.c:56-67 | The finaliser is a bijection, with an explicit inverse |
| MemcachedMurmur3.StepBijective | memcached-1.4.21/murmur3_hash.c:90-96 | For a fixed block, a step is a bijection of the state |
| MemcachedMurmur3.StepBlockBijective | memcached-1.4.21/murmur3_hash.c:90-96 | For a fixed state, a step is a bijection of the block |
| MemcachedMurmur3.BlockMatters | memcached-1.4.21/murmur3_hash.c:86-97 | For any reversible step, changing one block of a run changes the state at the end |
| MemcachedMurmur3.BlockChangesHash | memcached-1.4.21/murmur3_hash.c:71-123 | Keys of one length that differ only in one aligned block have different hashes |
| MemcachedMurmur3.TailChangesHash | memcached-1.4.21/murmur3_hash.c:102-112 | Keys that differ only in a tail of one to three bytes have different hashes |
| MemcachedMurmur3.BlockReachesHash | memcached-1.4.21/murmur3_hash.c:71-123 | As a function of one block the hash is onto: every value is taken |
| MemcachedMurmur3.MixBlocks | memcached-1.4.21/murmur3_hash.c:84-97 | The loop with negative indices folds the step over the blocks in order |
| MemcachedMurmur3.MixTail | memcached-1.4.21/murmur3_hash.c:104-112 | The falling-through switch mixes the tail bytes in as one little-endian word |
| MemcachedMurmur3.MurmurHash3 | memcached-1.4.21/murmur3_hash.c:71-123 | Computes the hash, on machines of either byte order |
| MemcachedMurmur3.LengthIsRecovered | memcached-1.4.21/murmur3_hash.c:114-118 | Undoing the last mix and taking blocks and tail away leaves the length modulo 2^32 |
| MemcachedMurmur3.ZeroByteChangesHash | memcached-1.4.21/murmur3_hash.c:102-118 | A zero byte after a key that ends within a block always changes the hash, by the length alone |
| MemcachedMurmur3.ScrambleConstants | memcached-1.4.21/murmur3_hash.c:90-92 | The multipliers and the rotation of a block, by a value |
| MemcachedMurmur3.SpreadConstants | memcached-1.4.21/murmur3_hash.c:94-96 | The rotation, multiplier and addend of the state, by two values |
| MemcachedMurmur3.FmixConstants | memcached-1.4.21/murmur3_hash.c:56-65 | The multipliers and shifts of the last mix, by its value where these show |
| MemcachedJenkins.MixBijective | memcached-1.4.21/jenkins_hash.c:35-87 | `mix` is reversible, as its comment says: an explicit inverse on both sides, for all triples |
| MemcachedJenkins.FinalBijective | memcached-1.4.21/jenkins_hash.c:114-123 | `final` is reversible on triples |
| MemcachedJenkins.MixIsRounds | memcached-1.4.21/jenkins_hash.c:79-87 | `mix` is six rounds of one shape, in which the lanes change places and a word turns by 4, 6, 8, 16, 19 and 4 bits |
| MemcachedJenkins.FinalIsRounds | memcached-1.4.21/jenkins_hash.c:114-123 | `final` is seven rounds of one shape that turn by 14, 11, 25, 16, 4, 14 and 24 bits |
| MemcachedJenkinsHash.MixAbc | memcached-1.4.21/jenkins_hash.c:79-87 | The macro computes `mix` |
| MemcachedJenkinsHash.Finish | memcached-1.4.21/jenkins_hash.c:114-123 | The macro computes `final` and returns `c` |
| MemcachedJenkinsHash.MaskedLittle | memcached-1.4.21/jenkins_hash.c:166-181 | The little-endian masks keep the first bytes of a word |
| MemcachedJenkinsHash.MaskedBig | memcached-1.4.21/jenkins_hash.c:344-359 | The big-endian masks keep the first bytes of a word |
| MemcachedJenkinsHash.MaskKeepsBytes | memcached-1.4.21/jenkins_hash.c:166-181 | Masking a loaded word, in either byte order, leaves the word of its first bytes |
| MemcachedJenkinsHash.Switch32 | memcached-1.4.21/jenkins_hash.c:166-181 | The switch that loads whole words and masks them adds only bytes of the key, whatever the words hold beyond its end, in either byte order |
| MemcachedJenkinsHash.LaneChecked | memcached-1.4.21/jenkins_hash.c:185-201 | The switch for memory checkers adds the same and reads the key only |
| MemcachedJenkinsHash.Hash32 | memcached-1.4.21/jenkins_hash.c:137-181 | The path by 32-bit words computes the hash of the key, in either byte order, whatever is over-read |
| MemcachedJenkinsHash.Hash32Checked | memcached-1.4.21/jenkins_hash.c:183-203 | So does the path for memory checkers |
| MemcachedJenkinsHash.Hash16 | memcached-1.4.21/jenkins_hash.c:205-250 | So does the path by 16-bit halves |
| MemcachedJenkinsHash.Hash8 | memcached-1.4.21/jenkins_hash.c:252-293 | So does the path by bytes |
| MemcachedJenkinsHash.JenkinsHash | memcached-1.4.21/jenkins_hash.c:126-297 | At any address, in either byte order, the result is one function of the key: the paths agree and over-read bytes do not matter |
| MemcachedJenkinsHash.HashOfNothing | memcached-1.4.21/jenkins_hash.c:134-297 | The empty key hashes to 0xdeadbeef |
| MemcachedJenkinsHash.HashOfZeros | memcached-1.4.21/jenkins_hash.c:134-297 | Up to twelve zero bytes are hashed as their number added to 0xdeadbeef in all three lanes |
| MemcachedJenkinsState.KeysStayApart | memcached-1.4.21/jenkins_hash.c:126-297 | Keys of one length that differ only within one twelve-byte block never reach the same final triple, of which the hash is one word |
| MemcachedJenkinsState.ZeroByteChangesState | memcached-1.4.21/jenkins_hash.c:134-297 | A zero byte after a key that ends within a block always changes the final triple, by the length alone |
| MemcachedCache.Cache.constructor | memcached-1.4.21/cache.c:19-46 | An empty cache with room for 64 free buffers |
| MemcachedCache.CacheCreate | memcached-1.4.21/cache.c:19-46 | A cache if its memory can be had, else none |
| MemcachedCache.Cache.Alloc | memcached-1.4.21/cache.c:71-104 | Hands out the buffer freed last, or a new one that the constructor accepts, never one that is handed out; a rejected buffer is released |
| MemcachedCache.Cache.Free | memcached-1.4.21/cache.c:106-147 | The buffer goes on the stack, which grows if need be, or is destroyed and released when it cannot grow |
| MemcachedCache.Cache.Enlarge | memcached-1.4.21/cache.c:131-137 | Growing doubles the stack's array and keeps what is on it |
| MemcachedCache.Cache.Destroy | memcached-1.4.21/cache.c:57-69 | Destroys and releases each free buffer exactly once, from the top of the stack, and no other |
| MemcachedCache.Cache.FreeAndAllocAgain | memcached-1.4.21/cache.c:71-147 | Buffers freed one after the other come back last first |
| MemcachedCache.Run | memcached-1.4.21/cache.c:57-147 | Over every well-behaved run with any failures, each buffer is in exactly one place and the user holds no buffer twice |
| MicroHttpdPercent.EncodedByteExactly | micro_httpd/micro_httpd.c:330-341 | A byte stays as it is if and only if it is a letter, a digit or one of the five listed signs; any other becomes a percent sign and its two lower-case hexadecimal digits |
| MicroHttpdPercent.HexitExactly | micro_httpd/micro_httpd.c:309-319 | Each hexadecimal digit is read for its value, in either case |
| MicroHttpdPercent.DecodeEncoded | micro_httpd/micro_httpd.c:293-346 | Decoding an encoding gives the string back, for every string of bytes |
| MicroHttpdPercent.EncodedIsSafe | micro_httpd/micro_httpd.c:324-346 | An encoding has only letters, digits, `/_.-~` and percent signs, so no zero byte |
| MicroHttpdPercent.FitsExactly | micro_httpd/micro_httpd.c:328-342 | Name and size determine how much is encoded; the whole name is if and only if all but its last byte leaves room for an escape |
| MicroHttpdPercent.StrEncode | micro_httpd/micro_httpd.c:324-346 | Writes, within the buffer, exactly the encoding of what fits and a zero; bytes beyond stay |
| MicroHttpdPercent.StrDecode | micro_httpd/micro_httpd.c:293-308 | Into another buffer or in place, the result is the same: the decoded string and a zero; bytes beyond stay |
| MicroHttpdPercent.EncodeThenDecode | micro_httpd/micro_httpd.c:293-346 | Encoding a name and decoding it in place gives the name, or exactly the prefix that fitted |

## Left out

- InfluxqlTimeRange.TimeRange: what an expression allows is stated for conjunctions, and for disjunctions of them when the range covers it; other expressions have the range of their comparisons.
- InfluxqlEmitter.Emitter.Emit: iterators must not hold the zero time that the emitter uses as its end mark.
- MemcachedMurmur3.MurmurHash3: the whole blocks of a key have fewer than 2^31 bytes, because the source computes four times their number as a signed 32-bit integer.
- MemcachedJenkinsHash.JenkinsHash: on the aligned path without memory checking, the words that the key touches must be readable as a whole, as the source assumes.
- FastdfsMd5.Md5Context.Update: buffered and new bytes together stay below 2^32, the exact bound of LoopGuardExact.
- FastdfsMd5.DigestOf: the block transform is a parameter; the round functions and constants of MD5 are not modelled.
- MicroHttpdPercent.StrEncode: the buffer has at least one byte, because the source writes a terminator into any buffer; the name has no zero byte, which would end it.
- CoordinatorMapShards.PointsWriter.MapShards: every shard group has a shard, because the source divides by their number.
- InfluxqlColumns.ColumnNames: `top` and `bottom` have a first argument, because the source slices it off unchecked.
- CoordinatorWrite.EveryRunIsBounded: that the Go scheduler takes a possible step sooner or later is not modelled.
- Null list and context pointers in the C code: methods have a receiver.
- The hand-over of points to subscribers, and the statistics of requests, in `WritePoints`.
- The aliasing of the buffered writer's slice with the batch it delivers; batches are values.
- Overflow of the object cache's `freetotal`, its red zones and its lock.
- List literals in expressions: `CloneExpr` does not accept them, so `Reduce` panics on them as on nil literals; the parser makes them only for the tag keys of SHOW TAG VALUES.
- `SetTimeRange`, `RewriteFields`, `String` and the statement types of ast.go: shallow edits or dependent on the parser.
- The rest of `StatementExecutor`, the meta client, sockets, files and configuration: delegation and input/output.
