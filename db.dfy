/**
 * The news table of the DAO (yan/db.py): the column widths and the
 * truncation of over-long strings, the store class with its insert, lookups
 * and copy from another store, and the engine strings of the SQLite and
 * PostgreSQL stores. The SQL engine is replaced by an in-memory sequence of
 * rows with an auto-incrementing id and the unique index on `text`.
 */
module Db {
  import opened Base
  import Text
  import opened Items

  /** The columns of table `news`, in declaration order. */
  datatype Column =
    | IdColumn | TitleColumn | TextColumn | TopicColumn | ClusterColumn | DatetimeColumn | PublisherColumn

  const Columns: seq<Column> :=
    [IdColumn, TitleColumn, TextColumn, TopicColumn, ClusterColumn, DatetimeColumn, PublisherColumn]

  const TitleWidth := 100
  const TextWidth := 500
  const TopicWidth := 30
  const ClusterWidth := 100
  const PublisherWidth := 30

  /** `value[:width]` when the value is longer than the column allows. */
  function Truncate(s: string, width: nat): (r: string)
    ensures |r| <= width && r <= s
    ensures |s| <= width ==> r == s
    ensures |s| > width ==> |r| == width && r == s[..width]
  {
    if |s| > width then s[..width] else s
  }

  function TruncateOptional(s: Option<string>, width: nat): (r: Option<string>)
    ensures r.Some? <==> s.Some?
    ensures r.Some? ==> |r.value| <= width && r.value <= s.value
    ensures s.Some? && |s.value| <= width ==> r == s
  {
    match s
    case None => None
    case Some(v) => Some(Truncate(v, width))
  }

  /** One step of the inner loop of _preprocessNews: the value of column c cut to its width. */
  function TruncateColumn(n: News, c: Column): News
  {
    match c
    case TitleColumn => n.(title := Truncate(n.title, TitleWidth))
    case TextColumn => n.(text := Truncate(n.text, TextWidth))
    case TopicColumn => n.(topic := TruncateOptional(n.topic, TopicWidth))
    case ClusterColumn => n.(cluster := Truncate(n.cluster, ClusterWidth))
    case PublisherColumn => n.(publisher := TruncateOptional(n.publisher, PublisherWidth))
    case _ => n
  }

  /** The inner loop run over the columns cols, in order. */
  function TruncateColumns(n: News, cols: seq<Column>): News
  {
    if cols == [] then n else TruncateColumn(TruncateColumns(n, cols[..|cols| - 1]), cols[|cols| - 1])
  }

  /** Every string value fits the width of its column. */
  predicate FitsWidths(n: News)
  {
    && |n.title| <= TitleWidth
    && |n.text| <= TextWidth
    && (n.topic.Some? ==> |n.topic.value| <= TopicWidth)
    && |n.cluster| <= ClusterWidth
    && (n.publisher.Some? ==> |n.publisher.value| <= PublisherWidth)
  }

  /**
   * A news dict after _preprocessNews: every string value is cut to a prefix
   * that fits its column; values that already fit and the date are untouched.
   */
  function Preprocess(n: News): (r: News)
    ensures FitsWidths(r)
    ensures FitsWidths(n) ==> r == n
    ensures |n.title| <= TitleWidth ==> r.title == n.title
    ensures |n.title| > TitleWidth ==> r.title == n.title[..TitleWidth]
    ensures |n.text| <= TextWidth ==> r.text == n.text
    ensures |n.text| > TextWidth ==> r.text == n.text[..TextWidth]
    ensures |n.cluster| <= ClusterWidth ==> r.cluster == n.cluster
    ensures |n.cluster| > ClusterWidth ==> r.cluster == n.cluster[..ClusterWidth]
    ensures r.topic.Some? == n.topic.Some?
    ensures n.topic.Some? && |n.topic.value| <= TopicWidth ==> r.topic == n.topic
    ensures n.topic.Some? && |n.topic.value| > TopicWidth ==> r.topic.value == n.topic.value[..TopicWidth]
    ensures r.publisher.Some? == n.publisher.Some?
    ensures n.publisher.Some? && |n.publisher.value| <= PublisherWidth ==> r.publisher == n.publisher
    ensures n.publisher.Some? && |n.publisher.value| > PublisherWidth ==>
      r.publisher.value == n.publisher.value[..PublisherWidth]
    ensures r.datetime == n.datetime
  {
    News(Truncate(n.title, TitleWidth), Truncate(n.text, TextWidth), TruncateOptional(n.topic, TopicWidth),
         Truncate(n.cluster, ClusterWidth), n.datetime, TruncateOptional(n.publisher, PublisherWidth))
  }

  /** Running the inner loop over all the table's columns is Preprocess. */
  lemma AllColumnsPreprocess(n: News)
    ensures TruncateColumns(n, Columns) == Preprocess(n)
  {
    forall k | 0 <= k < |Columns| ensures Columns[..k + 1][..k] == Columns[..k] { }
    var n1 := TruncateColumns(n, Columns[..1]);
    assert n1 == n by {
      var c1 := Columns[..1];
      assert c1 == [IdColumn] && c1[..0] == [];
      assert TruncateColumns(n, c1[..0]) == n;
      assert TruncateColumns(n, c1) == TruncateColumn(TruncateColumns(n, c1[..0]), IdColumn);
    }
    var n2 := TruncateColumns(n, Columns[..2]);
    assert n2 == n.(title := Truncate(n.title, TitleWidth));
    var n3 := TruncateColumns(n, Columns[..3]);
    assert n3 == n2.(text := Truncate(n.text, TextWidth));
    var n4 := TruncateColumns(n, Columns[..4]);
    assert n4 == n3.(topic := TruncateOptional(n.topic, TopicWidth));
    var n5 := TruncateColumns(n, Columns[..5]);
    assert n5 == n4.(cluster := Truncate(n.cluster, ClusterWidth));
    var n6 := TruncateColumns(n, Columns[..6]);
    assert n6 == n5;
    assert Columns[..7] == Columns;
  }

  /** Preprocessing twice is preprocessing once. */
  lemma PreprocessIdempotent(n: News)
    ensures Preprocess(Preprocess(n)) == Preprocess(n)
  {
  }

  /** [Preprocess(n) for n in items] */
  function PreprocessAll(items: seq<News>): (r: seq<News>)
    ensures |r| == |items| && forall k :: 0 <= k < |items| ==> r[k] == Preprocess(items[k])
  {
    if items == [] then [] else [Preprocess(items[0])] + PreprocessAll(items[1..])
  }

  /**
   * _preprocessNews: truncates, in place, the string values of every news
   * dict of the list to the widths of their columns.
   */
  method PreprocessNews(newsList: array<News>)
    modifies newsList
    ensures forall k :: 0 <= k < newsList.Length ==> newsList[k] == Preprocess(old(newsList[k]))
  {
    var i := 0;
    while i < newsList.Length
      invariant 0 <= i <= newsList.Length
      invariant forall k :: 0 <= k < i ==> newsList[k] == Preprocess(old(newsList[k]))
      invariant forall k :: i <= k < newsList.Length ==> newsList[k] == old(newsList[k])
    {
      var news := newsList[i];
      var j := 0;
      while j < |Columns|
        invariant 0 <= j <= |Columns|
        invariant news == TruncateColumns(newsList[i], Columns[..j])
      {
        assert Columns[..j + 1][..j] == Columns[..j];
        news := TruncateColumn(news, Columns[j]);
        j := j + 1;
      }
      assert Columns[..j] == Columns;
      AllColumnsPreprocess(newsList[i]);
      newsList[i] := news;
      i := i + 1;
    }
  }

  /** A stored row: the primary key and the news columns. */
  datatype Row = Row(id: nat, news: News)

  /** The news columns of the rows, in storage order. */
  function NewsOf(rows: seq<Row>): (r: seq<News>)
    ensures |r| == |rows| && forall k :: 0 <= k < |rows| ==> r[k] == rows[k].news
  {
    seq(|rows|, k requires 0 <= k < |rows| => rows[k].news)
  }

  function Texts(items: seq<News>): set<string>
  {
    set n | n in items :: n.text
  }

  /** The unique index on `text` holds. */
  predicate TextsUnique(items: seq<News>)
  {
    forall i, j :: 0 <= i < j < |items| ==> items[i].text != items[j].text
  }

  /** The unique index on `text` admits the insert of items into a table holding stored. */
  predicate CanInsert(stored: seq<News>, items: seq<News>)
  {
    TextsUnique(items) && forall k :: 0 <= k < |items| ==> items[k].text !in Texts(stored)
  }

  lemma TextsAppend(a: seq<News>, b: seq<News>)
    ensures Texts(a + b) == Texts(a) + Texts(b)
  {
    forall t | t in Texts(a + b) ensures t in Texts(a) + Texts(b) {
      var n :| n in a + b && n.text == t;
    }
  }

  /** An insert the unique index admits keeps the index intact. */
  lemma CanInsertKeepsUnique(stored: seq<News>, items: seq<News>)
    requires TextsUnique(stored) && CanInsert(stored, items)
    ensures TextsUnique(stored + items)
  {
    var all := stored + items;
    forall i, j | 0 <= i < j < |all| ensures all[i].text != all[j].text {
      if j >= |stored| && i < |stored| {
        assert all[i] in stored;
        assert all[j] == items[j - |stored|];
      }
    }
  }

  /** The items whose text is not among known: `[n for n in items if n["text"] not in known]`. */
  function Unstored(items: seq<News>, known: set<string>): (r: seq<News>)
    ensures |r| <= |items|
    ensures forall n :: n in r <==> n in items && n.text !in known
  {
    if items == [] then []
    else (if items[0].text in known then [] else [items[0]]) + Unstored(items[1..], known)
  }

  /** Items whose texts are all known are all skipped. */
  lemma {:induction false} UnstoredAllKnown(items: seq<News>, known: set<string>)
    requires forall k :: 0 <= k < |items| ==> items[k].text in known
    ensures Unstored(items, known) == []
  {
    if items != [] {
      UnstoredAllKnown(items[1..], known);
    }
  }

  /** Filtering distributes over concatenation, so it keeps the order of the items. */
  lemma {:induction false} UnstoredAppend(a: seq<News>, b: seq<News>, known: set<string>)
    ensures Unstored(a + b, known) == Unstored(a, known) + Unstored(b, known)
  {
    if a != [] {
      assert (a + b)[0] == a[0] && (a + b)[1..] == a[1..] + b;
      UnstoredAppend(a[1..], b, known);
    } else {
      assert a + b == b;
    }
  }

  lemma {:induction false} UnstoredUnique(items: seq<News>, known: set<string>)
    requires TextsUnique(items)
    ensures TextsUnique(Unstored(items, known))
  {
    if items != [] {
      UnstoredUnique(items[1..], known);
      var rest := Unstored(items[1..], known);
      if items[0].text !in known {
        var r := [items[0]] + rest;
        forall i, j | 0 <= i < j < |r| ensures r[i].text != r[j].text {
          if i == 0 {
            assert r[j] in items[1..];
          }
        }
      }
    }
  }

  lemma UnstoredTexts(items: seq<News>, known: set<string>)
    ensures Texts(Unstored(items, known)) == Texts(items) - known
  {
  }

  /** Texts that none of the items carries do not change which of them are kept. */
  lemma {:induction false} UnstoredIgnoresForeign(items: seq<News>, known: set<string>, other: set<string>)
    requires Texts(items) !! other
    ensures Unstored(items, known + other) == Unstored(items, known)
  {
    if items != [] {
      assert items[0] in items;
      assert Texts(items[1..]) <= Texts(items) by {
        forall t | t in Texts(items[1..]) ensures t in Texts(items) {
          var n :| n in items[1..] && n.text == t;
        }
      }
      UnstoredIgnoresForeign(items[1..], known, other);
    }
  }

  /** `select cluster where text in texts`, in storage order. */
  function ClustersFor(items: seq<News>, texts: seq<string>): (r: seq<string>)
    ensures |r| <= |items|
    ensures forall c :: c in r ==> exists n :: n in items && n.text in texts && n.cluster == c
  {
    if items == [] then []
    else (if items[0].text in texts then [items[0].cluster] else []) + ClustersFor(items[1..], texts)
  }

  /** A stored row with a text in texts yields its cluster label. */
  lemma {:induction false} ClustersForComplete(items: seq<News>, texts: seq<string>, k: int)
    requires 0 <= k < |items| && items[k].text in texts
    ensures items[k].cluster in ClustersFor(items, texts)
  {
    if k > 0 {
      ClustersForComplete(items[1..], texts, k - 1);
    }
  }

  /** The first label returned is that of the first stored row whose text is in texts. */
  lemma {:induction false} ClustersForFirst(items: seq<News>, texts: seq<string>, k: int)
    requires 0 <= k < |items| && items[k].text in texts
    requires forall j :: 0 <= j < k ==> items[j].text !in texts
    ensures ClustersFor(items, texts) != [] && ClustersFor(items, texts)[0] == items[k].cluster
  {
    if k > 0 {
      ClustersForFirst(items[1..], texts, k - 1);
    }
  }

  /**
   * The lookup distributes over concatenation: one label per matching row,
   * in storage order, duplicates kept.
   */
  lemma {:induction false} ClustersForAppend(a: seq<News>, b: seq<News>, texts: seq<string>)
    ensures ClustersFor(a + b, texts) == ClustersFor(a, texts) + ClustersFor(b, texts)
  {
    if a == [] {
      assert a + b == b;
    } else {
      var head := if a[0].text in texts then [a[0].cluster] else [];
      assert (a + b)[0] == a[0] && (a + b)[1..] == a[1..] + b;
      assert ClustersFor(a + b, texts) == head + ClustersFor(a[1..] + b, texts);
      ClustersForAppend(a[1..], b, texts);
      var x, y := ClustersFor(a[1..], texts), ClustersFor(b, texts);
      assert head + (x + y) == (head + x) + y;
    }
  }

  /** Without a stored row whose text is in texts, the lookup returns no label. */
  lemma {:induction false} ClustersForNone(items: seq<News>, texts: seq<string>)
    requires forall k :: 0 <= k < |items| ==> items[k].text !in texts
    ensures ClustersFor(items, texts) == []
  {
    if items != [] {
      ClustersForNone(items[1..], texts);
    }
  }

  /** `select * where cluster == c`, in storage order. */
  function InCluster(items: seq<News>, c: string): (r: seq<News>)
    ensures |r| <= |items|
    ensures forall n :: n in r <==> n in items && n.cluster == c
  {
    if items == [] then []
    else (if items[0].cluster == c then [items[0]] else []) + InCluster(items[1..], c)
  }

  /** The outcome of an insert: committed, or rejected whole by the unique index. */
  datatype Status = Committed | IntegrityError

  const PageSize := 10000

  /**
   * AbstractDAO: the `news` table behind an engine. Rows are only ever
   * appended; ids come from an increasing counter.
   */
  class NewsStore {
    const engine: string
    var rows: seq<Row>
    var nextId: nat

    ghost predicate Valid()
      reads this
    {
      && (forall k :: 0 <= k < |rows| ==> rows[k].id < nextId)
      && (forall i, j :: 0 <= i < j < |rows| ==> rows[i].id < rows[j].id)
      && TextsUnique(NewsOf(rows))
    }

    /** The stored news, without their ids, in storage order. */
    function Contents(): seq<News>
      reads this
    {
      NewsOf(rows)
    }

    /**
     * AbstractDAO.__init__: opens the table behind the given engine, holding
     * the news the database already has (none when create_all has just made
     * it); the unique index guarantees their texts are distinct.
     */
    constructor (engine: string, existing: seq<News>)
      requires TextsUnique(existing)
      ensures Valid() && Contents() == existing && this.engine == engine
    {
      this.engine := engine;
      rows := seq(|existing|, k requires 0 <= k < |existing| => Row(k + 1, existing[k]));
      nextId := |existing| + 1;
    }

    /**
     * The executemany insert of `items`: all of them, each with a fresh id,
     * or none when the unique index on `text` rejects the statement.
     */
    method Insert(items: seq<News>) returns (status: Status)
      requires Valid()
      modifies this
      ensures Valid()
      ensures status == (if CanInsert(old(Contents()), items) then Committed else IntegrityError)
      ensures Contents() == if status == Committed then old(Contents()) + items else old(Contents())
      ensures old(rows) <= rows
    {
      if !CanInsert(Contents(), items) {
        return IntegrityError;
      }
      CanInsertKeepsUnique(Contents(), items);
      var i := 0;
      while i < |items|
        invariant 0 <= i <= |items|
        invariant old(rows) <= rows && |rows| == |old(rows)| + i
        invariant NewsOf(rows) == old(Contents()) + items[..i]
        invariant forall k :: 0 <= k < |rows| ==> rows[k].id < nextId
        invariant forall a, b :: 0 <= a < b < |rows| ==> rows[a].id < rows[b].id
      {
        assert items[..i + 1] == items[..i] + [items[i]];
        rows := rows + [Row(nextId, items[i])];
        nextId := nextId + 1;
        i := i + 1;
      }
      assert items[..i] == items;
      assert (old(Contents()) + items)[..|old(Contents()) + items|] == old(Contents()) + items;
      status := Committed;
    }

    /**
     * addNews: preprocess the caller's dicts in place, then insert them all
     * or, on a duplicate text, none.
     */
    method AddNews(newsList: array<News>) returns (status: Status)
      requires Valid()
      modifies this, newsList
      ensures Valid()
      ensures newsList[..] == PreprocessAll(old(newsList[..]))
      ensures status == (if CanInsert(old(Contents()), newsList[..]) then Committed else IntegrityError)
      ensures Contents() == if status == Committed then old(Contents()) + newsList[..] else old(Contents())
      ensures old(rows) <= rows
    {
      PreprocessNews(newsList);
      status := Insert(newsList[..]);
    }

    /** getClustersByNewsTexts */
    function ClustersByNewsTexts(texts: seq<string>): (r: seq<string>)
      reads this
      ensures r == ClustersFor(Contents(), texts)
    {
      ClustersFor(NewsOf(rows), texts)
    }

    /** getNewsByCluster: the stored rows labelled c, with their ids. */
    function NewsByCluster(c: string): (r: seq<Row>)
      reads this
      ensures NewsOf(r) == InCluster(Contents(), c)
      ensures forall x :: x in r <==> x in rows && x.news.cluster == c
    {
      NewsByClusterOf(rows, c)
    }

    /** _newsExists */
    function NewsExists(text: string): (b: bool)
      reads this
      ensures b <==> text in Texts(Contents())
    {
      exists k | 0 <= k < |rows| :: rows[k].news.text == text
    }

    /**
     * populateFrom: read the other store in pages of PageSize rows by
     * increasing offset until a page comes back empty, and insert, under new
     * ids, the rows of each page whose text this store does not hold yet.
     */
    method PopulateFrom(other: NewsStore)
      requires Valid() && other.Valid() && other != this
      modifies this
      ensures Valid()
      ensures Contents() == old(Contents()) + Unstored(other.Contents(), Texts(old(Contents())))
      ensures Texts(Contents()) == Texts(old(Contents())) + Texts(other.Contents())
      ensures old(rows) <= rows && unchanged(other)
    {
      ghost var start := Contents();
      ghost var known := Texts(start);
      ghost var source := other.Contents();
      var offset := 0;
      while true
        invariant Valid() && other.Valid()
        invariant 0 <= offset <= |other.rows| + PageSize
        invariant old(rows) <= rows
        invariant Contents() == start + Unstored(source[..Min(offset, |source|)], known)
        decreases |other.rows| + PageSize - offset
      {
        var page := other.rows[Min(offset, |other.rows|)..Min(offset + PageSize, |other.rows|)];
        if page == [] {
          PopulateDone(start, source, offset, known);
          return;
        }
        ghost var hi := Min(offset + PageSize, |source|);
        NewsOfSlice(other.rows, offset, hi);
        var newItems := Unstored(NewsOf(page), Texts(Contents()));
        PageNext(start, source, offset, hi, known);
        var status := Insert(newItems);
        offset := offset + PageSize;
      }
    }
  }

  /** One page of the copy: the unique index admits it, and the table grows to the next prefix's kept rows. */
  lemma PageNext(start: seq<News>, source: seq<News>, lo: int, hi: int, known: set<string>)
    requires TextsUnique(source) && 0 <= lo <= hi <= |source|
    requires Texts(start) == known
    ensures var current := start + Unstored(source[..lo], known);
      var kept := Unstored(source[lo..hi], Texts(current));
      && CanInsert(current, kept)
      && current + kept == start + Unstored(source[..hi], known)
  {
    PageStep(source, lo, hi, known, start);
    PageAppended(start, source, lo, hi, known);
  }

  lemma NewsOfSlice(rows: seq<Row>, lo: int, hi: int)
    requires 0 <= lo <= hi <= |rows|
    ensures NewsOf(rows[lo..hi]) == NewsOf(rows)[lo..hi]
  {
  }

  /** After the last page: every text of the source is now held. */
  lemma PopulateDone(start: seq<News>, source: seq<News>, offset: int, known: set<string>)
    requires offset >= |source| && Texts(start) == known
    ensures source[..Min(offset, |source|)] == source
    ensures Texts(start + Unstored(source, known)) == known + Texts(source)
  {
    UnstoredTexts(source, known);
    TextsAppend(start, Unstored(source, known));
  }

  /** Appending the kept rows of one page extends the kept rows of the prefix read so far. */
  lemma PageAppended(start: seq<News>, source: seq<News>, lo: int, hi: int, known: set<string>)
    requires 0 <= lo <= hi <= |source|
    ensures start + Unstored(source[..lo], known) + Unstored(source[lo..hi], known) == start + Unstored(source[..hi], known)
  {
    PrefixGrows(source, lo, hi, known);
    var a, b := Unstored(source[..lo], known), Unstored(source[lo..hi], known);
    assert start + a + b == start + (a + b);
  }

  lemma NewsOfAppend(a: seq<Row>, b: seq<Row>)
    ensures NewsOf(a + b) == NewsOf(a) + NewsOf(b)
  {
  }

  function NewsByClusterOf(rows: seq<Row>, c: string): (r: seq<Row>)
    ensures NewsOf(r) == InCluster(NewsOf(rows), c)
    ensures forall x :: x in r <==> x in rows && x.news.cluster == c
  {
    if rows == [] then []
    else
      var head := if rows[0].news.cluster == c then [rows[0]] else [];
      var tail := NewsByClusterOf(rows[1..], c);
      NewsOfAppend(head, tail);
      var all := NewsOf(rows);
      assert all != [] && all[0] == rows[0].news && all[1..] == NewsOf(rows[1..]);
      assert NewsOf(head) == if rows[0].news.cluster == c then [all[0]] else [];
      assert InCluster(all, c) == (if all[0].cluster == c then [all[0]] else []) + InCluster(all[1..], c);
      head + tail
  }

  lemma SliceUnique(source: seq<News>, lo: int, hi: int)
    requires TextsUnique(source) && 0 <= lo <= hi <= |source|
    ensures TextsUnique(source[lo..hi])
  {
    var page := source[lo..hi];
    forall i, j | 0 <= i < j < |page| ensures page[i].text != page[j].text {
      assert page[i] == source[lo + i] && page[j] == source[lo + j];
    }
  }

  /** With unique texts, a later slice shares no text with the prefix before it. */
  lemma SliceDisjoint(source: seq<News>, lo: int, hi: int)
    requires TextsUnique(source) && 0 <= lo <= hi <= |source|
    ensures Texts(source[lo..hi]) !! Texts(source[..lo])
  {
    var before, page := source[..lo], source[lo..hi];
    forall t | t in Texts(page) ensures t !in Texts(before) {
      var n :| n in page && n.text == t;
      var j :| 0 <= j < |page| && page[j] == n;
      assert source[lo + j] == n;
    }
  }

  /** The items kept by Unstored can be inserted beside any table whose texts are known. */
  lemma UnstoredCanInsert(current: seq<News>, items: seq<News>, known: set<string>)
    requires TextsUnique(items) && Texts(current) <= known
    ensures CanInsert(current, Unstored(items, known))
  {
    var kept := Unstored(items, known);
    UnstoredUnique(items, known);
    forall k | 0 <= k < |kept| ensures kept[k].text !in Texts(current) {
      assert kept[k] in kept;
    }
  }

  /**
   * One page of populateFrom: filtering the page against the destination as
   * it stands equals filtering it against the destination's original texts,
   * and the unique index admits the result.
   */
  lemma PageStep(source: seq<News>, lo: int, hi: int, known: set<string>, start: seq<News>)
    requires TextsUnique(source) && 0 <= lo <= hi <= |source|
    requires Texts(start) == known
    ensures var current := start + Unstored(source[..lo], known);
      var kept := Unstored(source[lo..hi], Texts(current));
      && kept == Unstored(source[lo..hi], known)
      && CanInsert(current, kept)
  {
    var before, page := source[..lo], source[lo..hi];
    var current := start + Unstored(before, known);
    PrefixTexts(start, before, known);
    PageKept(source, lo, hi, known, Texts(current));
    SliceUnique(source, lo, hi);
    UnstoredCanInsert(current, page, Texts(current));
  }

  lemma PrefixTexts(start: seq<News>, before: seq<News>, known: set<string>)
    requires Texts(start) == known
    ensures Texts(start + Unstored(before, known)) == known + Texts(before)
  {
    TextsAppend(start, Unstored(before, known));
    UnstoredTexts(before, known);
  }

  lemma PageKept(source: seq<News>, lo: int, hi: int, known: set<string>, current: set<string>)
    requires TextsUnique(source) && 0 <= lo <= hi <= |source|
    requires current == known + Texts(source[..lo])
    ensures Unstored(source[lo..hi], current) == Unstored(source[lo..hi], known)
  {
    SliceDisjoint(source, lo, hi);
    assert current == known + (Texts(source[..lo]) - known);
    UnstoredIgnoresForeign(source[lo..hi], known, Texts(source[..lo]) - known);
  }

  lemma PrefixGrows(source: seq<News>, lo: int, hi: int, known: set<string>)
    requires 0 <= lo <= hi <= |source|
    ensures Unstored(source[..lo], known) + Unstored(source[lo..hi], known) == Unstored(source[..hi], known)
  {
    assert source[..hi] == source[..lo] + source[lo..hi];
    UnstoredAppend(source[..lo], source[lo..hi], known);
  }

  /** SQLiteDAO: the engine string of a database file. */
  function SqliteEngine(path: string): (r: string)
    ensures |r| == 10 + |path| && r[..10] == "sqlite:///" && r[10..] == path
  {
    "sqlite:///" + path
  }

  /** A scalar value of the parsed YAML configuration. */
  datatype Scalar = Str(s: string) | Int(i: int)

  /** The parsed configuration: a mapping, or any other YAML document. */
  datatype Config = Mapping(entries: map<string, Scalar>) | NotMapping

  datatype ConfigError = NotAMapping | MissingKeys(keys: set<string>)

  const RequiredKeys: set<string> := {"user", "password", "database"}
  const DefaultHost := "127.0.0.1"
  const DefaultPort := 5432

  /** `"{}".format(v)` */
  function Format(v: Scalar): (r: string)
    ensures v.Str? ==> r == v.s
    ensures v.Int? ==> Text.ParseInt(r) == Some(v.i)
  {
    match v
    case Str(s) => s
    case Int(i) =>
      Text.IntToStringRoundTrip(i);
      Text.IntToString(i)
  }

  /** `config.get(key, default)` */
  function Get(entries: map<string, Scalar>, key: string, default: Scalar): (r: Scalar)
    ensures key in entries ==> r == entries[key]
    ensures key !in entries ==> r == default
  {
    if key in entries then entries[key] else default
  }

  function PostgresUrl(user: string, password: string, host: string, port: string, database: string): string
  {
    "postgresql://" + user + ":" + password + "@" + host + ":" + port + "/" + database
  }

  /** Reads the five components back out of a postgresql:// engine string. */
  function ParsePostgresUrl(url: string): Option<(string, string, string, string, string)>
  {
    if |url| < 13 || url[..13] != "postgresql://" then None
    else match Text.SplitFirst(url[13..], ':')
      case None => None
      case Some((user, rest1)) => match Text.SplitFirst(rest1, '@')
        case None => None
        case Some((password, rest2)) => match Text.SplitFirst(rest2, ':')
          case None => None
          case Some((host, rest3)) => match Text.SplitFirst(rest3, '/')
            case None => None
            case Some((port, database)) => Some((user, password, host, port, database))
  }

  /** The engine string determines its components when none holds the separator that ends it. */
  lemma PostgresUrlRoundTrip(user: string, password: string, host: string, port: string, database: string)
    requires ':' !in user && '@' !in password && ':' !in host && '/' !in port
    ensures ParsePostgresUrl(PostgresUrl(user, password, host, port, database)) == Some((user, password, host, port, database))
  {
    var url := PostgresUrl(user, password, host, port, database);
    var tail3 := port + "/" + database;
    var tail2 := host + ":" + tail3;
    var tail1 := password + "@" + tail2;
    assert url == "postgresql://" + (user + ":" + tail1);
    assert url[13..] == user + [':'] + tail1;
    Text.SplitFirstAt(user, ':', tail1);
    Text.SplitFirstAt(password, '@', tail2);
    Text.SplitFirstAt(host, ':', tail3);
    Text.SplitFirstAt(port, '/', database);
  }

  /** PostgresDAO.__init__ from the parsed configuration: the engine string or the ConfigError. */
  function PostgresEngine(config: Config): (r: Result<string, ConfigError>)
    ensures config.NotMapping? ==> r == Err(NotAMapping)
    ensures config.Mapping? ==> (r.Err? <==> !(RequiredKeys <= config.entries.Keys))
    ensures config.Mapping? && r.Err? ==> r.error == MissingKeys(RequiredKeys - config.entries.Keys)
  {
    match config
    case NotMapping => Err(NotAMapping)
    case Mapping(entries) =>
      var missing := RequiredKeys - entries.Keys;
      if missing != {} then Err(MissingKeys(missing))
      else
        assert "user" !in missing && "password" !in missing && "database" !in missing;
        Ok(PostgresUrl(Format(entries["user"]), Format(entries["password"]),
                       Format(Get(entries, "host", Str(DefaultHost))),
                       Format(Get(entries, "port", Int(DefaultPort))), Format(entries["database"])))
  }

  /** The default port renders as the digits 5432. */
  lemma DefaultPortText()
    ensures Format(Int(DefaultPort)) == "5432"
  {
    assert Text.NatToString(5) == "5";
    assert Text.NatToString(54) == "54";
    assert Text.NatToString(543) == "543";
  }

  /** A complete configuration yields an engine string naming its user, password and database, and the host and port or their defaults. */
  lemma PostgresEngineComponents(entries: map<string, Scalar>)
    requires RequiredKeys <= entries.Keys
    requires ':' !in Format(entries["user"]) && '@' !in Format(entries["password"])
    requires ':' !in Format(Get(entries, "host", Str(DefaultHost)))
    requires '/' !in Format(Get(entries, "port", Int(DefaultPort)))
    ensures PostgresEngine(Mapping(entries)).Ok?
    ensures var parts := ParsePostgresUrl(PostgresEngine(Mapping(entries)).value);
      && parts.Some?
      && parts.value.0 == Format(entries["user"])
      && parts.value.1 == Format(entries["password"])
      && parts.value.2 == (if "host" in entries then Format(entries["host"]) else "127.0.0.1")
      && parts.value.3 == (if "port" in entries then Format(entries["port"]) else "5432")
      && parts.value.4 == Format(entries["database"])
  {
    var user, password, database := Format(entries["user"]), Format(entries["password"]), Format(entries["database"]);
    var host, port := Format(Get(entries, "host", Str(DefaultHost))), Format(Get(entries, "port", Int(DefaultPort)));
    assert PostgresEngine(Mapping(entries)) == Ok(PostgresUrl(user, password, host, port, database));
    PostgresUrlRoundTrip(user, password, host, port, database);
    DefaultPortText();
  }
}
