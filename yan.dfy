/**
 * The main loop of yan/yan.py: for every scraped cluster, resolve the label
 * under which its news may already be stored, collect the texts stored under
 * that label, and add the news whose text is not among them.
 */
module Yan {
  import opened Items
  import opened Db
  import Www

  /** One scraped cluster as the feed yields it: its title and its news dicts. */
  datatype Batch = Batch(cluster: string, items: seq<News>)

  /** `[news["text"] for news in news_list]` */
  function BatchTexts(b: Batch): (r: seq<string>)
    ensures |r| == |b.items| && forall k :: 0 <= k < |b.items| ==> r[k] == b.items[k].text
  {
    seq(|b.items|, k requires 0 <= k < |b.items| => b.items[k].text)
  }

  /**
   * The lookup label: the first cluster stored for a text of the batch or,
   * when there is none or it is the empty (falsy) string, the scraped label.
   */
  function LookupLabel(stored: seq<News>, b: Batch): (r: string)
    ensures r == b.cluster || (r != [] && exists n :: n in stored && n.text in BatchTexts(b) && n.cluster == r)
  {
    var found := ClustersFor(stored, BatchTexts(b));
    if found != [] && found[0] != [] then
      assert found[0] in found;
      found[0]
    else b.cluster
  }

  /** The label of the first stored row whose text is in the batch wins, unless it is empty. */
  lemma LookupLabelFirstMatch(stored: seq<News>, b: Batch, k: int)
    requires 0 <= k < |stored| && stored[k].text in BatchTexts(b)
    requires forall j :: 0 <= j < k ==> stored[j].text !in BatchTexts(b)
    ensures LookupLabel(stored, b) == if stored[k].cluster != [] then stored[k].cluster else b.cluster
  {
    ClustersForFirst(stored, BatchTexts(b), k);
  }

  /** Without a stored text of the batch, the scraped label is used. */
  lemma LookupLabelNoMatch(stored: seq<News>, b: Batch)
    requires forall k :: 0 <= k < |stored| ==> stored[k].text !in BatchTexts(b)
    ensures LookupLabel(stored, b) == b.cluster
  {
    ClustersForNone(stored, BatchTexts(b));
  }

  /** yan.py:34 as written: `[0]` of the looked-up labels, which raises IndexError when there are none. */
  function LookupLabelAsWritten(stored: seq<News>, b: Batch): Base.Result<string, Www.Raised>
  {
    var found := ClustersFor(stored, BatchTexts(b));
    if found == [] then Base.Err(Www.IndexError)
    else Base.Ok(if found[0] != [] then found[0] else b.cluster)
  }

  /**
   * As written, the lookup raises exactly when no text of the batch is
   * stored, in particular for the first non-empty batch on an empty table;
   * otherwise it agrees with LookupLabel.
   */
  lemma LookupLabelAsWrittenRaises(stored: seq<News>, b: Batch)
    ensures LookupLabelAsWritten(stored, b).Err? <==> forall k :: 0 <= k < |stored| ==> stored[k].text !in BatchTexts(b)
    ensures LookupLabelAsWritten(stored, b).Ok? ==> LookupLabelAsWritten(stored, b).value == LookupLabel(stored, b)
    ensures b.items != [] ==> LookupLabelAsWritten([], b) == Base.Err(Www.IndexError)
  {
    var found := ClustersFor(stored, BatchTexts(b));
    if found != [] {
      assert found[0] in found;
    } else {
      forall k | 0 <= k < |stored| ensures stored[k].text !in BatchTexts(b) {
        if stored[k].text in BatchTexts(b) {
          ClustersForComplete(stored, BatchTexts(b), k);
        }
      }
    }
  }

  /** `set(news["text"] for news in dao.getNewsByCluster(label))` */
  function LabelTexts(stored: seq<News>, lookup: string): (r: set<string>)
    ensures forall t :: t in r <==> exists n :: n in stored && n.cluster == lookup && n.text == t
  {
    Texts(InCluster(stored, lookup))
  }

  /** The news of the batch that yan.py:41 hands to addNews, in batch order. */
  function ToInsert(stored: seq<News>, b: Batch): (r: seq<News>)
    ensures forall n :: n in r <==> n in b.items && n.text !in LabelTexts(stored, LookupLabel(stored, b))
  {
    Unstored(b.items, LabelTexts(stored, LookupLabel(stored, b)))
  }

  /** One iteration of the loop: the table afterwards and the outcome of its insert. */
  function ApplyBatch(stored: seq<News>, b: Batch): (r: (seq<News>, Status))
    ensures r.1 == IntegrityError ==> r.0 == stored
    ensures r.1 == Committed ==> stored <= r.0 && |r.0| <= |stored| + |b.items|
  {
    var pre := PreprocessAll(ToInsert(stored, b));
    if CanInsert(stored, pre) then (stored + pre, Committed) else (stored, IntegrityError)
  }

  /** An iteration only appends to the table and keeps its texts unique; a rejected one changes nothing. */
  lemma ApplyBatchAppends(stored: seq<News>, b: Batch)
    requires TextsUnique(stored)
    ensures stored <= ApplyBatch(stored, b).0
    ensures TextsUnique(ApplyBatch(stored, b).0)
    ensures ApplyBatch(stored, b).1 == IntegrityError ==> ApplyBatch(stored, b).0 == stored
  {
    var pre := PreprocessAll(ToInsert(stored, b));
    if CanInsert(stored, pre) {
      CanInsertKeepsUnique(stored, pre);
    }
  }

  /**
   * Every row an iteration adds is a batch news dict whose text was not
   * stored under the lookup label, truncated to the column widths: it keeps
   * its own cluster, not the lookup label.
   */
  lemma ApplyBatchInserted(stored: seq<News>, b: Batch, k: int)
    requires |stored| <= k < |ApplyBatch(stored, b).0|
    ensures exists m :: (m in b.items && m.text !in LabelTexts(stored, LookupLabel(stored, b))
      && ApplyBatch(stored, b).0[k] == Preprocess(m)
      && ApplyBatch(stored, b).0[k].cluster == Truncate(m.cluster, ClusterWidth))
  {
    var items := ToInsert(stored, b);
    var m := items[k - |stored|];
    assert m in items;
  }

  /** Conversely, a committed iteration adds every batch news dict whose text was not stored under the lookup label. */
  lemma ApplyBatchComplete(stored: seq<News>, b: Batch, m: News)
    requires ApplyBatch(stored, b).1 == Committed
    requires m in b.items && m.text !in LabelTexts(stored, LookupLabel(stored, b))
    ensures Preprocess(m) in ApplyBatch(stored, b).0[|stored|..]
  {
    var items := ToInsert(stored, b);
    var k :| 0 <= k < |items| && items[k] == m;
    assert ApplyBatch(stored, b).0[|stored| + k] == Preprocess(m);
  }

  /** Index of the first stored row whose text is in texts, or |stored|. */
  function FirstMatch(stored: seq<News>, texts: seq<string>): (k: nat)
    ensures k <= |stored|
    ensures forall j :: 0 <= j < k ==> stored[j].text !in texts
    ensures k < |stored| ==> stored[k].text in texts
  {
    if stored == [] then 0
    else if stored[0].text in texts then 0
    else 1 + FirstMatch(stored[1..], texts)
  }

  /** Every text of the batch is stored under the scraped label. */
  predicate StoredUnderLabel(stored: seq<News>, b: Batch)
  {
    forall m :: m in b.items ==> exists n :: n in stored && n.text == m.text && n.cluster == b.cluster
  }

  /** With unique texts, a batch stored under its own label looks itself up. */
  lemma StoredBatchLabel(stored: seq<News>, b: Batch)
    requires TextsUnique(stored) && StoredUnderLabel(stored, b)
    ensures LookupLabel(stored, b) == b.cluster
  {
    var texts := BatchTexts(b);
    var k := FirstMatch(stored, texts);
    if k == |stored| {
      LookupLabelNoMatch(stored, b);
    } else {
      var i :| 0 <= i < |b.items| && b.items[i].text == stored[k].text;
      var n :| n in stored && n.text == b.items[i].text && n.cluster == b.cluster;
      var j :| 0 <= j < |stored| && stored[j] == n;
      assert j == k;
      LookupLabelFirstMatch(stored, b, k);
    }
  }

  /** Reprocessing a batch whose texts are all stored under its scraped label inserts nothing. */
  lemma ReprocessInsertsNothing(stored: seq<News>, b: Batch)
    requires TextsUnique(stored) && StoredUnderLabel(stored, b)
    ensures ToInsert(stored, b) == []
    ensures ApplyBatch(stored, b) == (stored, Committed)
  {
    StoredBatchLabel(stored, b);
    var items := ToInsert(stored, b);
    forall k | 0 <= k < |b.items| ensures b.items[k].text in LabelTexts(stored, b.cluster) {
      assert b.items[k] in b.items;
      var n :| n in stored && n.text == b.items[k].text && n.cluster == b.cluster;
      assert n in InCluster(stored, b.cluster);
    }
    UnstoredAllKnown(b.items, LabelTexts(stored, b.cluster));
    assert PreprocessAll(items) == [] && stored + [] == stored;
  }

  /**
   * A batch whose news carry its label and fit their columns, processed under
   * its own label, is stored under that label once committed: running it
   * again inserts nothing.
   */
  lemma FirstRunThenNothing(stored: seq<News>, b: Batch)
    requires TextsUnique(stored)
    requires forall m :: m in b.items ==> m.cluster == b.cluster && FitsWidths(m)
    requires LookupLabel(stored, b) == b.cluster
    requires ApplyBatch(stored, b).1 == Committed
    ensures ApplyBatch(ApplyBatch(stored, b).0, b) == (ApplyBatch(stored, b).0, Committed)
  {
    var after := ApplyBatch(stored, b).0;
    var items := ToInsert(stored, b);
    assert PreprocessAll(items) == items by {
      forall k | 0 <= k < |items| ensures Preprocess(items[k]) == items[k] {
        assert items[k] in items;
      }
    }
    ApplyBatchAppends(stored, b);
    forall m | m in b.items ensures exists n :: n in after && n.text == m.text && n.cluster == b.cluster {
      if m.text in LabelTexts(stored, b.cluster) {
        var n :| n in InCluster(stored, b.cluster) && n.text == m.text;
        assert n in after;
      } else {
        assert m in items;
        assert m in after;
      }
    }
    ReprocessInsertsNothing(after, b);
  }

  /**
   * A stored text is the truncated one, while the lookups use the scraped
   * text: a news dict with a 501-character text is inserted on the first run
   * and rejected by the unique index on the next.
   */
  lemma LongTextReprocessFails()
    ensures var long := seq(TextWidth + 1, _ => 'a');
      var b := Batch("c", [News("t", long, Base.None, "c", Base.None, Base.None)]);
      && ApplyBatch([], b).1 == Committed
      && ApplyBatch(ApplyBatch([], b).0, b).1 == IntegrityError
  {
    var long := seq(TextWidth + 1, _ => 'a');
    var m := News("t", long, Base.None, "c", Base.None, Base.None);
    var b := Batch("c", [m]);
    LookupLabelNoMatch([], b);
    assert ToInsert([], b) == [m];
    var stored := [Preprocess(m)];
    assert ApplyBatch([], b).0 == stored;
    assert Preprocess(m).text != long;
    assert ClustersFor(stored, BatchTexts(b)) == [];
    assert LookupLabel(stored, b) == "c";
    assert InCluster(stored, "c") == stored;
    assert ToInsert(stored, b) == [m];
  }

  /** The loop over the feed: batches in order, stopping at the first insert the unique index rejects. */
  function ApplyFeed(stored: seq<News>, batches: seq<Batch>): (r: (seq<News>, Status))
    ensures stored <= r.0
    decreases |batches|
  {
    if batches == [] then (stored, Committed)
    else
      var (next, status) := ApplyBatch(stored, batches[0]);
      if status == IntegrityError then (next, IntegrityError) else ApplyFeed(next, batches[1..])
  }

  /** The loop never removes or changes a stored row, and the texts stay unique. */
  lemma {:induction false} ApplyFeedAppends(stored: seq<News>, batches: seq<Batch>)
    requires TextsUnique(stored)
    ensures stored <= ApplyFeed(stored, batches).0
    ensures TextsUnique(ApplyFeed(stored, batches).0)
    decreases |batches|
  {
    if batches != [] {
      ApplyBatchAppends(stored, batches[0]);
      var (next, status) := ApplyBatch(stored, batches[0]);
      if status == Committed {
        ApplyFeedAppends(next, batches[1..]);
      }
    }
  }

  /** Feeding one more batch after a committed prefix runs it on the table the prefix left. */
  lemma {:induction false} ApplyFeedStep(stored: seq<News>, batches: seq<Batch>, b: Batch, mid: seq<News>)
    requires ApplyFeed(stored, batches) == (mid, Committed)
    ensures ApplyFeed(stored, batches + [b]) == ApplyBatch(mid, b)
    decreases |batches|
  {
    if batches == [] {
      assert batches + [b] == [b];
    } else {
      assert (batches + [b])[0] == batches[0] && (batches + [b])[1..] == batches[1..] + [b];
      var (next, status) := ApplyBatch(stored, batches[0]);
      ApplyFeedStep(next, batches[1..], b, mid);
    }
  }

  /** The body of the loop in main, on the store. */
  method ReconcileBatch(store: NewsStore, b: Batch) returns (status: Status)
    requires store.Valid()
    modifies store
    ensures store.Valid()
    ensures (store.Contents(), status) == ApplyBatch(old(store.Contents()), b)
    ensures old(store.rows) <= store.rows
  {
    var found := store.ClustersByNewsTexts(BatchTexts(b));
    var lookup := if found != [] && found[0] != [] then found[0] else b.cluster;
    assert lookup == LookupLabel(store.Contents(), b);
    var dbTexts := Texts(NewsOf(store.NewsByCluster(lookup)));
    var toInsert := Unstored(b.items, dbTexts);
    var newsList := new News[|toInsert|](k requires 0 <= k < |toInsert| => toInsert[k]);
    assert newsList[..] == ToInsert(old(store.Contents()), b);
    status := store.AddNews(newsList);
  }

  /** The loop of main over the scraped clusters; an IntegrityError ends the program. */
  method ReconcileFeed(store: NewsStore, batches: seq<Batch>) returns (status: Status)
    requires store.Valid()
    modifies store
    ensures store.Valid()
    ensures (store.Contents(), status) == ApplyFeed(old(store.Contents()), batches)
    ensures old(store.rows) <= store.rows
  {
    var i := 0;
    while i < |batches|
      invariant 0 <= i <= |batches| && store.Valid()
      invariant ApplyFeed(old(store.Contents()), batches[..i]) == (store.Contents(), Committed)
      invariant old(store.rows) <= store.rows
    {
      ApplyFeedStep(old(store.Contents()), batches[..i], batches[i], store.Contents());
      PrefixSnoc(batches, i);
      status := ReconcileBatch(store, batches[i]);
      if status == IntegrityError {
        ApplyFeedPrefixFails(old(store.Contents()), batches, i + 1);
        return;
      }
      i := i + 1;
    }
    assert batches[..i] == batches;
    status := Committed;
  }

  lemma PrefixSnoc(batches: seq<Batch>, i: int)
    requires 0 <= i < |batches|
    ensures batches[..i + 1] == batches[..i] + [batches[i]]
  {
  }

  /** Once a prefix of the feed ends in a rejected insert, so does the whole feed. */
  lemma {:induction false} ApplyFeedPrefixFails(stored: seq<News>, batches: seq<Batch>, n: int)
    requires 0 <= n <= |batches|
    requires ApplyFeed(stored, batches[..n]).1 == IntegrityError
    ensures ApplyFeed(stored, batches) == ApplyFeed(stored, batches[..n])
    decreases |batches|
  {
    if batches != [] && n > 0 {
      var prefix := batches[..n];
      assert prefix[0] == batches[0] && prefix[1..] == batches[1..][..n - 1];
      var r := ApplyBatch(stored, batches[0]);
      assert ApplyFeed(stored, prefix) == if r.1 == IntegrityError then r else ApplyFeed(r.0, prefix[1..]);
      assert ApplyFeed(stored, batches) == if r.1 == IntegrityError then r else ApplyFeed(r.0, batches[1..]);
      if r.1 == Committed {
        ApplyFeedPrefixFails(r.0, batches[1..], n - 1);
      }
    }
  }
}
