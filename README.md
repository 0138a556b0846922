# yan news scraper — a Dafny model of its core

yan scrapes clustered news from Yandex News and stores it in a relational
table. This project models the deterministic core of that program and
proves properties of the model:

- **The news table** (`yan/db.py`), in module `Db`:
  - column widths and the truncation of over-long values (`_preprocessNews`);
  - `AbstractDAO`, modelled as the class `NewsStore` with rows of an
    auto-incremented id and a news value. It supports the all-or-nothing
    insert under the unique index on `text` (`addNews`), the two lookups, the
    existence test and the paged copy from another store (`populateFrom`);
  - the SQLite engine string, and the PostgreSQL configuration check and
    engine string, starting from an already-parsed YAML mapping.
- **The main loop** (`yan/yan.py:30-41`), in module `Yan`. For each scraped
  cluster it resolves a lookup label, collects the texts stored under that
  label and adds the news whose text is not among them. `ReconcileBatch`
  and `ReconcileFeed` are module-level methods of `Yan` that take the store
  and change it. They are proved against the
  value-level functions `ApplyBatch` and `ApplyFeed`, and the loop's
  properties are proved about those functions.
- **The cluster-page scraper's pure parts** (`yan/www.py`), in module `Www`:
  - `month_map`;
  - the publication-date parser `_parseDatetime`, a function of the phrase's
    words and of `today`;
  - the loop that builds a page's news list and `news_count`
    (`ReadClusterPage`).
- **Support modules**:
  - `Text` models the Python string built-ins the core relies on:
    `str.lower`, `str.split()`, `str.split(sep)`, `int()` and `str(int)`;
  - `Calendar` holds proleptic Gregorian dates, their order and the day
    before a date;
  - `Items` holds the news dict (`News`);
  - `Base` holds `Option` and `Result`.

The exceptions of the date parser and the page builder are values of
`Www.Raised` inside a `Result`. In `Db`, the unique index's IntegrityError is
the `Status` an insert returns, and the configuration errors are values of
`ConfigError`. Where the code
is broken as written, the model follows what it evidently intends:
- `_preprocessNews` reads and writes `news[name]`, the column's *type* is
  the one tested for `String`, and its warning goes through `logging.warning`
  (yan/db.py:51 calls `logging.waning`, which raises AttributeError on every
  truncation once the other two repairs apply).
- `_newsExists` compares against its parameter.
- `populateFrom` stops at the first empty page and drops the `id` of each row.
- `main` calls `getClustersByNewsTexts`, and an empty lookup falls back to the
  scraped label.
- `timedelta(years=1)` means the same day a year earlier.
- `config.keys` is the key set.

Each of these repairs changes what the code as written does. As written,
`isinstance(column, String)` never holds, so nothing is truncated (yan/db.py:48).
`_newsExists` raises NameError (yan/db.py:85). `set(config.keys)` raises
TypeError (yan/db.py:114). `getClusterByNewsTexts` raises AttributeError
(yan/yan.py:34). In `populateFrom`, `news.pop("id", None)` on the SQL result
object raises AttributeError, and `if not news` never holds, because a
result object is always true (yan/db.py:76-79). "## Findings" records the two repairs whose as-written form
is also modelled, with a lemma exhibiting the difference. The rows of a SQL
`select` come back in insertion order in this model.

## Model

| member | source | states |
|---|---|---|
| Db.Truncate | yan/db.py:50-53 | the value is cut to at most `length` characters, as a prefix; a value that fits is unchanged; a longer one keeps exactly `length` characters |
| Db.Preprocess | yan/db.py:47-53 | column by column (title 100, text 500, topic 30, cluster 100, publisher 30): a value within its width is unchanged, a longer one becomes its first width characters, a missing topic or publisher stays missing; the date is unchanged; the result fits every width, and a dict that already fits is unchanged |
| Db.AllColumnsPreprocess | yan/db.py:47-53 | running the per-column truncation over all seven columns in declaration order equals `Preprocess` |
| Db.PreprocessIdempotent | yan/db.py:44-54 | preprocessing an already preprocessed news dict changes nothing |
| Db.PreprocessAll | yan/db.py:44-54 | the list keeps its length and each element is its preprocessed original |
| Db.PreprocessNews | yan/db.py:44-54 | in place over the array of news dicts, every element becomes its preprocessed original |
| Db.NewsOf | yan/db.py:79 | the stored rows without their ids, one per row in storage order |
| Db.CanInsertKeepsUnique | yan/db.py:26 | an insert the unique index on `text` admits leaves the texts of the table unique |
| Db.Unstored | yan/db.py:80 | the kept items are exactly the items whose text is not known, never more than given |
| Db.UnstoredAppend | yan/db.py:80 | the filter distributes over concatenation, so it keeps the items' order |
| Db.UnstoredUnique | yan/db.py:80 | filtering items with unique texts leaves unique texts |
| Db.UnstoredAllKnown | yan/db.py:80 | when every text is known, nothing is kept |
| Db.UnstoredIgnoresForeign | yan/db.py:80 | known texts that none of the items carries do not change the result |
| Db.ClustersFor | yan/db.py:56-59 | every returned label belongs to a stored row whose text is in the list |
| Db.ClustersForComplete | yan/db.py:56-59 | every stored row whose text is in the list contributes its label |
| Db.ClustersForFirst | yan/db.py:56-59 | the first label is that of the first stored row whose text is in the list |
| Db.ClustersForNone | yan/db.py:56-59 | without a matching stored row the result is empty |
| Db.ClustersForAppend | yan/db.py:56-59 | the labels for a table made of two parts are those for the first part followed by those for the second |
| Db.InCluster | yan/db.py:61-64 | exactly the stored news whose cluster equals the label |
| Db.NewsStore.constructor | yan/db.py:20-38 | a store opened over an engine string holds exactly the news its table already has (texts unique, as the unique index guarantees), under increasing ids |
| Db.NewsStore.Insert | yan/db.py:26-42 | the executemany insert: with a duplicate text (within the items or against the table) nothing changes and IntegrityError results; otherwise the items are appended under fresh ids; the store invariant is kept |
| Db.NewsStore.AddNews | yan/db.py:40-42 | the caller's dicts are preprocessed in place, then inserted all or none; old rows are never changed |
| Db.NewsStore.ClustersByNewsTexts | yan/db.py:56-59 | the labels of the stored rows whose text is in the list, in storage order |
| Db.NewsStore.NewsByCluster | yan/db.py:61-64 | exactly the stored rows, with their ids, whose cluster is the label, in storage order |
| Db.NewsStore.NewsExists | yan/db.py:83-86 | true iff some stored row has exactly that text |
| Db.NewsStore.PopulateFrom | yan/db.py:73-81 | paging through the other store by 10000 until an empty page appends exactly the other's rows whose text is new, in order; the text set becomes the union; the other store is unchanged |
| Db.PageStep | yan/db.py:78-81 | filtering a page against the texts stored so far equals filtering it against the texts held before the copy, and the unique index admits it |
| Db.NewsByClusterOf | yan/db.py:61-64 | the rows of a label are exactly the rows with that cluster, and projected to news they are `InCluster` of the table |
| Db.SqliteEngine | yan/db.py:94 | `sqlite:///` followed by the file path |
| Db.PostgresEngine | yan/db.py:111-120 | a non-mapping is rejected; a mapping is rejected iff one of user, password or database is missing, naming the missing ones |
| Db.PostgresUrlRoundTrip | yan/db.py:118-120 | the five components can be read back from the engine string when none holds the separator after it |
| Db.PostgresEngineComponents | yan/db.py:99-120 | a complete configuration yields the engine string of its user, password and database and of its host and port, or 127.0.0.1 and 5432 |
| Db.DefaultPortText | yan/db.py:100 | the default port formats as "5432" |
| Db.Format | yan/db.py:118-120 | a string value is written as is; an integer value is written so that `int()` reads it back |
| Db.Get | yan/db.py:119-120 | the value under the key when present, the default otherwise |
| Yan.BatchTexts | yan/yan.py:34 | the texts of the batch, one per news dict in order |
| Yan.LookupLabel | yan/yan.py:34 | the lookup label is the scraped label or the non-empty cluster of a stored row whose text is in the batch |
| Yan.LabelTexts | yan/yan.py:38 | exactly the texts of the stored rows under the lookup label |
| Yan.LookupLabelFirstMatch | yan/yan.py:34 | the lookup label is the cluster of the first stored row whose text is in the batch, or the scraped label when that cluster is empty |
| Yan.LookupLabelNoMatch | yan/yan.py:34 | with no stored text of the batch, the lookup label is the scraped label |
| Yan.ToInsert | yan/yan.py:36-41 | the news handed to addNews are exactly the batch's news whose text is not stored under the lookup label |
| Yan.ApplyBatch | yan/yan.py:34-41 | a rejected insert leaves the table as it was; a committed one only appends, at most one row per news dict of the batch |
| Yan.ApplyBatchAppends | yan/yan.py:41 | an iteration only appends rows and keeps texts unique; a rejected insert changes nothing |
| Yan.ApplyBatchInserted | yan/yan.py:34-41 | each appended row is a truncated batch dict whose text was not stored under the lookup label; it keeps its own cluster, not the lookup label |
| Yan.ApplyBatchComplete | yan/yan.py:38-41 | a committed iteration appends every batch dict whose text was not stored under the lookup label |
| Yan.FirstMatch | yan/yan.py:34 | the index of the first stored row whose text is in the list, or the table's length |
| Yan.StoredBatchLabel | yan/yan.py:34 | with unique texts, a batch whose texts are all stored under its label looks up that label |
| Yan.ReprocessInsertsNothing | yan/yan.py:34-41 | reprocessing a batch whose texts are all stored under its scraped label inserts nothing and commits |
| Yan.FirstRunThenNothing | yan/yan.py:30-41 | a batch whose dicts carry its label and fit their columns, once committed under its own label, inserts nothing when run again |
| Yan.LongTextReprocessFails | yan/yan.py:34-41 | a batch holding a 501-character text commits on the first run and is rejected by the unique index on the second |
| Yan.ApplyFeed | yan/yan.py:30-41 | the loop never removes or changes a stored row |
| Yan.ApplyFeedAppends | yan/yan.py:30-41 | the whole loop only appends to the table and keeps texts unique |
| Yan.ApplyFeedStep | yan/yan.py:30-41 | each batch runs on the table that the batches before it left, after their inserts |
| Yan.ApplyFeedPrefixFails | yan/yan.py:41 | a rejected insert ends the loop: later batches are not run |
| Yan.ReconcileBatch | yan/yan.py:34-41 | the loop body on the store: the lookup, the stored texts of the label and the insert leave the store as `ApplyBatch` says, and the rows already stored keep their ids |
| Yan.ReconcileFeed | yan/yan.py:30-41 | the loop over all batches leaves the store as `ApplyFeed` says, and the rows already stored keep their ids |
| Www.MonthMapBijective | yan/www.py:170-183 | month_map maps the twelve distinct genitive names onto 1..12, in calendar order |
| Www.MonthNameShape | yan/www.py:219-224 | a month name holds no '.' and is neither "сегодня" nor "вчера", so no earlier branch takes it |
| Www.ParseTime | yan/www.py:216 | succeeds iff the word splits on ':' into exactly two integers, which are hour and minute; ValueError otherwise |
| Www.MakeDate | yan/www.py:223 | `datetime.date` accepts exactly the valid dates; otherwise it raises OverflowError when an argument is outside the C int range, else ValueError |
| Www.DottedDate | yan/www.py:221-223 | a dotted word yields a valid date, else ValueError, or OverflowError for a number outside the C int range |
| Www.PreviousYear | yan/www.py:229 | the same day and month one year earlier when that is a date, else ValueError (only 29 February, or year 1, has none) |
| Www.MonthDayDate | yan/www.py:224-229 | on success: a valid date not after today, with the parsed day, the given month and this year or last year; otherwise ValueError or OverflowError |
| Www.ResolveDate | yan/www.py:217-232 | a resolved date is always a valid date |
| Www.ParseDatetime | yan/www.py:214-234 | a parsed stamp is a valid date-time; an empty phrase raises IndexError |
| Www.TimeFromLastWord | yan/www.py:216 | the hour and minute of a parsed stamp are the two integers of the last word |
| Www.TodayPhrase | yan/www.py:217-218 | one word, or "сегодня" third from the end, gives today at that time |
| Www.YesterdayPhrase | yan/www.py:219-220 | "вчера" third from the end gives the day before today at that time |
| Www.DottedPhrase | yan/www.py:221-223 | "DD.MM.YY" gives that day and month of year 2000+YY; when that is no date, ValueError, or OverflowError for a number outside the C int range |
| Www.MonthNamePhrase | yan/www.py:224-229 | a day and month name succeed iff the day is valid in this year's month and, when that date is after today, also in last year's; the result is that day and month this year, or last year when this year's is after today; otherwise ValueError, or OverflowError for a day outside the C int range |
| Www.UnknownPhrase | yan/www.py:230-232 | any other third-from-last word yields None, not an exception |
| Www.TimedeltaYearsRaises | yan/www.py:228-229 | as written, 5 March seen on 10 January 2026 raises TypeError; the model gives 5 March 2025 |
| Www.DocTime | yan/www.py:203 | a doc without a time raises AttributeError, a blank time IndexError; a parsed stamp is a valid date-time |
| Www.DocTimes | yan/www.py:194-203 | all docs' dates in page order, or the exception of the first doc whose date raises |
| Www.DocTimesFirstError | yan/www.py:194-203 | the exception of a page is the one of its first doc whose date raises |
| Www.PageWithoutTime | yan/www.py:199-203 | with the page's own date parser, a doc without a time element aborts the page with AttributeError unless an earlier doc's date raised first |
| Www.DocNews | yan/www.py:195-202 | the news dict of a kept doc has a non-empty title, text and cluster |
| Www.Kept | yan/www.py:204-207 | never more items than docs; each has a non-empty title and text, the page title as cluster and the page topic |
| Www.KeptNews | yan/www.py:194-207 | succeeds iff every doc's date parses; then at most one item per doc, each with a non-empty title, text and cluster |
| Www.KeptSound | yan/www.py:204-207 | every kept item comes from a doc with non-empty title and text under a non-empty page title |
| Www.KeptComplete | yan/www.py:204-207 | every such doc's item is kept |
| Www.ReadClusterPage | yan/www.py:185-209 | the page's news list is the kept items in doc order and news_count is their number, or the first exception |
| Text.Lower | yan/www.py:215 | lower-casing keeps the length and maps each character on its own |
| Text.Words | yan/www.py:215 | the words are non-empty and free of whitespace, and together they are the phrase's non-space characters in order |
| Text.WordsSpaced | yan/www.py:215 | words laid out with whitespace runs between them (and optionally around them) come back one by one, in order |
| Text.Split | yan/www.py:216 | at least one part, none of which contains the separator |
| Text.JoinSplit | yan/www.py:216 | joining the parts of a split with the separator gives back the string |
| Text.SplitJoin | yan/www.py:216 | splitting a join of separator-free parts gives back the parts |
| Text.ParseInt | yan/www.py:216 | `int()` accepts exactly an optional sign followed by ASCII digits; without a minus sign the value is not negative |
| Text.ParseIntNumeral | yan/www.py:216 | an optional sign, leading zeros and the digits of n read as n, or -n after a minus sign ("09" is 9, "+5" is 5) |
| Text.ParseInts | yan/www.py:216 | the parts convert iff each one is an integer literal, element by element |
| Text.SplitFirst | yan/db.py:118 | cutting at the first separator, which the head does not contain |
| Text.IntToStringRoundTrip | yan/db.py:118-120 | the formatted integer reads back as the same integer |
| Calendar.ValidDate | yan/www.py:223 | a valid date has a day from 1 to 31, the 31st only in a long month, and 29 February only in a leap year |
| Calendar.AfterStrictTotal | yan/www.py:228 | `>` on dates is irreflexive and transitive, and any two different dates compare one way |
| Calendar.AfterIsLaterOrdinal | yan/www.py:228 | date comparison is comparison of day numbers |
| Calendar.PrevDay | yan/www.py:220 | the day before a date is a valid date whose day number is one less |
| Calendar.PrevDayIsAdjacent | yan/www.py:220 | no date lies strictly between a date and the day before it |

## Left out

- HTTP fetching, feed parsing, HTML extraction, Tor circuit renewal, `sleep` and the captcha retry loop (`yan/www.py`): network I/O and foreign libraries. The page builder starts from the extracted doc fields.
- The feed list and the generator `YandexNews.clusters`: they only orchestrate network pages. `ReconcileFeed` takes the batches as a sequence.
- `toJson`: it copies the dicts, and with value semantics the copy is the news list itself.
- The SQLAlchemy engine, `create_all`, connections and `close`: the store is an in-memory table. `OpenError` is not modelled.
- Db.NewsStore.constructor: the rows already in the table are a parameter, numbered 1, 2, ... in storage order; the database's own ids are not modelled.
- Db.NewsStore.Insert: a value longer than its column is stored as given, as SQLite does; PostgreSQL's rejection of such a value is not modelled.
- `exportToCsv`: file I/O.
- Reading and parsing the YAML file of `PostgresDAO`: I/O. `PostgresEngine` starts from the parsed document. Only string and integer values are modelled.
- argparse, logging and `sys.exit` in `main`: command-line plumbing. A rejected insert ends `ReconcileFeed`, the way the uncaught exception ends `main`.
- `datetime.date.today()`: the clock is the `today` parameter.
- Db.NewsStore.Insert: a SQL insert of an empty list is modelled as a no-op that commits. As written, `addNews([])` (yan/yan.py:41) and the insert of an all-known page (yan/db.py:81) may instead compile to a single row of default values, which the NOT NULL `title` column rejects. `Yan.ReprocessInsertsNothing` and `Yan.FirstRunThenNothing` rely on the no-op choice.
- Db.NewsStore.ClustersByNewsTexts: SQL gives no row order without `ORDER BY`; the model uses insertion order.
- Db.NewsStore.PopulateFrom: requires the other store to be a different object; copying a store into itself is not modelled.
- Db.PreprocessNews: a None value in a string column is left unchanged, as evidently intended. With the repaired type test, `len(None)` raises TypeError (yan/db.py:50) for a None topic (a page without an active topic tab, yan/www.py:192) or a None publisher (a doc without an agency, yan/www.py:198), which would abort `addNews` and `main`.
- Text.ParseInt: Python's `int()` also accepts surrounding whitespace, underscores between digits and non-ASCII digits. The model accepts an optional sign and ASCII digits; the words reaching it are already whitespace-free.
- Text.Lower: only ASCII and Cyrillic letters are lowered; other scripts are left as they are.
- Calendar: dates range over years 1..9999 as in Python's `datetime`; time zones are not modelled.

## Findings

| source | as written | input that shows it | evidently intended | confidence | as-written member | corrected member |
|---|---|---|---|---|---|---|
| yan/www.py:229 | `timedelta(years=1)` raises TypeError, because timedelta has no years argument | the phrase "5 марта в 10:00" read on 10 January 2026 | the same day and month of the previous year | high, not executed | Www.MonthDayDateAsWritten (Www.TimedeltaYearsRaises) | Www.MonthDayDate (Www.MonthNamePhrase) |
| yan/yan.py:34 | `[0]` of the looked-up labels raises IndexError when no text of the batch is stored, so the first non-empty batch on an empty table aborts `main` | any non-empty batch against an empty table | the first stored label, or else the scraped label | high, not executed | Yan.LookupLabelAsWritten (Yan.LookupLabelAsWrittenRaises) | Yan.LookupLabel (Yan.LookupLabelFirstMatch, Yan.LookupLabelNoMatch) |
