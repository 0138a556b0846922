/**
 * The deterministic parts of the news-page scraper (yan/www.py): the
 * genitive month-name table, the publication-date phrase parser of
 * YandexClusterNewsPage, and the filter that builds a cluster page's news list.
 */
module Www {
  import opened Base
  import opened Text
  import opened Calendar
  import opened Items

  /** The Python exceptions the date parser and the page builder can raise. */
  datatype Raised = IndexError | ValueError | TypeError | OverflowError | AttributeError

  /** YandexClusterNewsPage.month_map: genitive Russian month names. */
  const MonthMap: map<string, int> := map[
    "января" := 1, "февраля" := 2, "марта" := 3, "апреля" := 4,
    "мая" := 5, "июня" := 6, "июля" := 7, "августа" := 8,
    "сентября" := 9, "октября" := 10, "ноября" := 11, "декабря" := 12]

  const MonthNames: seq<string> := [
    "января", "февраля", "марта", "апреля", "мая", "июня",
    "июля", "августа", "сентября", "октября", "ноября", "декабря"]

  /** month_map is a bijection between the twelve names and the months 1..12. */
  lemma MonthMapBijective()
    ensures forall name :: name in MonthMap <==> name in MonthNames
    ensures forall k :: 0 <= k < |MonthNames| ==> MonthMap[MonthNames[k]] == k + 1
    ensures forall i, j :: 0 <= i < j < |MonthNames| ==> MonthNames[i] != MonthNames[j]
    ensures |MonthNames| == 12
  {
  }

  /** No month name can be mistaken for an earlier branch of the parser. */
  lemma MonthNameShape(name: string)
    requires name in MonthMap
    ensures 1 <= MonthMap[name] <= 12
    ensures '.' !in name && name != "сегодня" && name != "вчера"
  {
  }

  /** `hour, minute = [int(x) for x in word.split(":")]`. */
  function ParseTime(word: string): (r: Result<(int, int), Raised>)
    ensures r.Ok? <==> ParseInts(Split(word, ':')).Some? && |Split(word, ':')| == 2
    ensures r.Ok? ==> ParseInts(Split(word, ':')).value == [r.value.0, r.value.1]
    ensures r.Err? ==> r.error == ValueError
  {
    match ParseInts(Split(word, ':'))
    case None => Err(ValueError)
    case Some(xs) => if |xs| == 2 then Ok((xs[0], xs[1])) else Err(ValueError)
  }

  /**
   * The arguments datetime.date and datetime.datetime convert to a C int;
   * a value outside that range raises OverflowError before any range check.
   */
  predicate CInt(x: int)
  {
    -0x8000_0000 <= x < 0x8000_0000
  }

  /** `datetime.date(year=y, month=m, day=d)`: OverflowError, ValueError or the date. */
  function MakeDate(y: int, m: int, d: int): (r: Result<Option<Date>, Raised>)
    ensures r.Ok? <==> ValidDate(Date(y, m, d))
    ensures r.Ok? ==> r.value == Some(Date(y, m, d))
    ensures r.Err? ==> r.error == (if CInt(y) && CInt(m) && CInt(d) then ValueError else OverflowError)
  {
    if !(CInt(y) && CInt(m) && CInt(d)) then Err(OverflowError)
    else if ValidDate(Date(y, m, d)) then Ok(Some(Date(y, m, d)))
    else Err(ValueError)
  }

  /** `datetime.date(day=d, month=m, year=2000+y)` for a word "d.m.y". */
  function DottedDate(word: string): (r: Result<Option<Date>, Raised>)
    ensures r.Ok? ==> r.value.Some? && ValidDate(r.value.value)
    ensures r.Err? ==> r.error == ValueError || r.error == OverflowError
  {
    match ParseInts(Split(word, '.'))
    case None => Err(ValueError)
    case Some(xs) =>
      if |xs| != 3 then Err(ValueError)
      else MakeDate(2000 + xs[2], xs[1], xs[0])
  }

  /**
   * `date -= timedelta(years=1)` as intended: the same day and month a year
   * earlier; 29 February has no such day in a common year and raises
   * ValueError, as date.replace(year=...) does.
   */
  function PreviousYear(d: Date): (r: Result<Option<Date>, Raised>)
    ensures r.Ok? <==> ValidDate(Date(d.year - 1, d.month, d.day))
    ensures r.Ok? ==> r.value == Some(Date(d.year - 1, d.month, d.day))
    ensures r.Err? ==> r.error == ValueError
    ensures ValidDate(d) && d.year > MinYear && !(d.month == 2 && d.day == 29) ==> r.Ok?
  {
    var p := Date(d.year - 1, d.month, d.day);
    if ValidDate(p) then Ok(Some(p)) else Err(ValueError)
  }

  /** A day number followed by a month name: this year's date, or last year's when that is still to come. */
  function MonthDayDate(dayWord: string, month: int, today: Date): (r: Result<Option<Date>, Raised>)
    requires ValidDate(today) && 1 <= month <= 12
    ensures r.Ok? ==> && r.value.Some? && ValidDate(r.value.value) && !After(r.value.value, today)
                      && ParseInt(dayWord) == Some(r.value.value.day) && r.value.value.month == month
                      && (r.value.value.year == today.year || r.value.value.year == today.year - 1)
    ensures r.Err? ==> r.error == ValueError || r.error == OverflowError
  {
    match ParseInt(dayWord)
    case None => Err(ValueError)
    case Some(day) =>
      match MakeDate(today.year, month, day)
      case Err(e) => Err(e)
      case Ok(date) =>
        var d := date.value;
        if After(d, today) then PreviousYear(d) else Ok(Some(d))
  }

  /** The same branch as the source writes it: timedelta has no `years` argument and raises TypeError. */
  function MonthDayDateAsWritten(dayWord: string, month: int, today: Date): (r: Result<Option<Date>, Raised>)
    requires ValidDate(today) && 1 <= month <= 12
  {
    match ParseInt(dayWord)
    case None => Err(ValueError)
    case Some(day) =>
      match MakeDate(today.year, month, day)
      case Err(e) => Err(e)
      case Ok(date) => if After(date.value, today) then Err(TypeError) else Ok(date)
  }

  /** Which date the words before the time denote; Ok(None) is the logged "could not determine" branch. */
  function ResolveDate(words: seq<string>, today: Date): (r: Result<Option<Date>, Raised>)
    requires |words| >= 1 && ValidDate(today)
    ensures r.Ok? && r.value.Some? ==> ValidDate(r.value.value)
  {
    if |words| == 1 then Ok(Some(today))
    else if |words| < 3 then Err(IndexError)
    else
      var w := words[|words| - 3];
      if w == "сегодня" then Ok(Some(today))
      else if w == "вчера" then
        if today == Date(MinYear, 1, 1) then Err(OverflowError) else Ok(Some(PrevDay(today)))
      else if '.' in w then DottedDate(w)
      else if w in MonthMap then
        if |words| < 4 then Err(IndexError)
        else MonthDayDate(words[|words| - 4], MonthMap[w], today)
      else Ok(None)
  }

  /**
   * _parseDatetime on the already lower-cased, whitespace-split words of
   * the phrase: the time comes from the last word, the date from the
   * third-from-last (and, for a month name, the fourth-from-last) word.
   */
  function ParseDatetime(words: seq<string>, today: Date): (r: Result<Option<DateTime>, Raised>)
    requires ValidDate(today)
    ensures r.Ok? && r.value.Some? ==> ValidDateTime(r.value.value)
    ensures words == [] ==> r == Err(IndexError)
  {
    if words == [] then Err(IndexError)
    else
      match ParseTime(words[|words| - 1])
      case Err(e) => Err(e)
      case Ok((hour, minute)) =>
        match ResolveDate(words, today)
        case Err(e) => Err(e)
        case Ok(None) => Ok(None)
        case Ok(Some(date)) =>
          if !(CInt(hour) && CInt(minute)) then Err(OverflowError)
          else if 0 <= hour < 24 && 0 <= minute < 60 then Ok(Some(DateTime(date, hour, minute)))
          else Err(ValueError)
  }

  /** A parsed stamp always carries the hour and minute written in the last word. */
  lemma TimeFromLastWord(words: seq<string>, today: Date)
    requires ValidDate(today)
    requires ParseDatetime(words, today).Ok? && ParseDatetime(words, today).value.Some?
    ensures var t := ParseDatetime(words, today).value.value;
      ParseInts(Split(words[|words| - 1], ':')) == Some([t.hour, t.minute])
  {
  }

  /** A single word, or "сегодня" third from the end, means today. */
  lemma TodayPhrase(words: seq<string>, today: Date, hour: int, minute: int)
    requires ValidDate(today) && words != []
    requires |words| == 1 || (|words| >= 3 && words[|words| - 3] == "сегодня")
    requires ParseTime(words[|words| - 1]) == Ok((hour, minute))
    requires 0 <= hour < 24 && 0 <= minute < 60
    ensures ParseDatetime(words, today) == Ok(Some(DateTime(today, hour, minute)))
  {
  }

  /** "вчера" third from the end means the calendar day before today. */
  lemma YesterdayPhrase(words: seq<string>, today: Date, hour: int, minute: int)
    requires ValidDate(today) && today != Date(MinYear, 1, 1)
    requires |words| >= 3 && words[|words| - 3] == "вчера"
    requires ParseTime(words[|words| - 1]) == Ok((hour, minute))
    requires 0 <= hour < 24 && 0 <= minute < 60
    ensures ParseDatetime(words, today).Ok? && ParseDatetime(words, today).value.Some?
    ensures var t := ParseDatetime(words, today).value.value;
      t.hour == hour && t.minute == minute && Ordinal(t.date) == Ordinal(today) - 1
  {
  }

  /**
   * A dotted "DD.MM.YY" word third from the end means that day in the year
   * 2000 + YY; a component beyond the C int range raises OverflowError and
   * any other impossible date ValueError.
   */
  lemma DottedPhrase(words: seq<string>, today: Date, hour: int, minute: int, d: int, m: int, y: int)
    requires ValidDate(today)
    requires |words| >= 3 && '.' in words[|words| - 3]
    requires ParseInts(Split(words[|words| - 3], '.')) == Some([d, m, y])
    requires ParseTime(words[|words| - 1]) == Ok((hour, minute))
    requires 0 <= hour < 24 && 0 <= minute < 60
    ensures ValidDate(Date(2000 + y, m, d)) ==>
      ParseDatetime(words, today) == Ok(Some(DateTime(Date(2000 + y, m, d), hour, minute)))
    ensures !ValidDate(Date(2000 + y, m, d)) ==>
      ParseDatetime(words, today) == Err(if CInt(2000 + y) && CInt(m) && CInt(d) then ValueError else OverflowError)
  {
    var w := words[|words| - 3];
    assert w != "сегодня" && w != "вчера" by {
      assert '.' !in "сегодня" && '.' !in "вчера";
    }
  }

  /**
   * A day and a month name mean the latest such date that is not after
   * today. The branch succeeds exactly when that day exists this year and,
   * if it is still to come, last year too; a day beyond the C int range
   * raises OverflowError, any other failure ValueError.
   */
  lemma MonthNamePhrase(words: seq<string>, today: Date, hour: int, minute: int, day: int)
    requires ValidDate(today)
    requires |words| >= 4 && words[|words| - 3] in MonthMap
    requires ParseInt(words[|words| - 4]) == Some(day)
    requires ParseTime(words[|words| - 1]) == Ok((hour, minute))
    requires 0 <= hour < 24 && 0 <= minute < 60
    ensures var month := MonthMap[words[|words| - 3]];
      var d := Date(today.year, month, day);
      ParseDatetime(words, today).Ok? <==>
        ValidDate(d) && (After(d, today) ==> ValidDate(Date(today.year - 1, month, day)))
    ensures ParseDatetime(words, today).Err? ==>
      ParseDatetime(words, today).error == (if CInt(day) then ValueError else OverflowError)
    ensures ParseDatetime(words, today).Ok? ==> ParseDatetime(words, today).value.Some?
    ensures ParseDatetime(words, today).Ok? ==>
      var t := ParseDatetime(words, today).value.value;
      var month := MonthMap[words[|words| - 3]];
      && t.hour == hour && t.minute == minute
      && t.date.month == month && t.date.day == day
      && t.date.year == (if After(Date(today.year, month, day), today) then today.year - 1 else today.year)
      && !After(t.date, today)
  {
    MonthNameShape(words[|words| - 3]);
  }

  /** Any other third-from-last word gives "no date", whatever the hour and minute are. */
  lemma UnknownPhrase(words: seq<string>, today: Date)
    requires ValidDate(today)
    requires |words| >= 3 && ParseTime(words[|words| - 1]).Ok?
    requires var w := words[|words| - 3];
      w != "сегодня" && w != "вчера" && '.' !in w && w !in MonthMap
    ensures ParseDatetime(words, today) == Ok(None)
  {
  }

  /** As written, a day-and-month date later than today raises TypeError instead of moving back a year. */
  lemma TimedeltaYearsRaises()
    ensures MonthDayDateAsWritten("5", 3, Date(2026, 1, 10)) == Err(TypeError)
    ensures MonthDayDate("5", 3, Date(2026, 1, 10)) == Ok(Some(Date(2025, 3, 5)))
  {
    assert ParseInt("5") == Some(5) by {
      assert AllDigits("5");
    }
  }

  /** One div.doc_for_instory of a cluster page; None where get_text found no element. */
  datatype Doc = Doc(title: Option<string>, text: Option<string>, publisher: Option<string>, time: Option<string>)

  /** A scraped cluster page after YandexClusterNewsPage.__init__. */
  datatype ClusterPage = ClusterPage(title: Option<string>, topic: Option<string>, news: seq<News>, newsCount: nat)

  predicate Filled(s: Option<string>)
  {
    s.Some? && s.value != []
  }

  /** `not news["title"] or not news["text"] or not news["cluster"]` is false. */
  predicate Keeps(doc: Doc, title: Option<string>)
  {
    Filled(doc.title) && Filled(doc.text) && Filled(title)
  }

  /** `self._parseDatetime(news["datetime"])`, with `timestr.lower().split()`; None has no lower(). */
  function DocTime(doc: Doc, today: Date): (r: Result<Option<DateTime>, Raised>)
    requires ValidDate(today)
    ensures doc.time.None? ==> r == Err(AttributeError)
    ensures doc.time.Some? && AllSpace(doc.time.value) ==> r == Err(IndexError)
    ensures r.Ok? && r.value.Some? ==> ValidDateTime(r.value.value)
  {
    if doc.time.None? then Err(AttributeError)
    else
      var words := Words(Lower(doc.time.value));
      assert AllSpace(doc.time.value) ==> words == [] by {
        if AllSpace(doc.time.value) {
          BlankHasNoWords(doc.time.value);
        }
      }
      ParseDatetime(words, today)
  }

  /** The date parser a page applies to each of its docs. */
  function PageParser(today: Date): Doc -> Result<Option<DateTime>, Raised>
    requires ValidDate(today)
  {
    doc => DocTime(doc, today)
  }

  /** The dates of all docs in page order, or the exception of the first doc whose date raises. */
  function DocTimes(docs: seq<Doc>, parse: Doc -> Result<Option<DateTime>, Raised>): (r: Result<seq<Option<DateTime>>, Raised>)
    ensures r.Ok? <==> forall i :: 0 <= i < |docs| ==> parse(docs[i]).Ok?
    ensures r.Ok? ==> |r.value| == |docs| && forall i :: 0 <= i < |docs| ==> r.value[i] == parse(docs[i]).value
    ensures r.Err? ==> exists i :: (0 <= i < |docs| && parse(docs[i]) == Err(r.error) &&
      forall j :: 0 <= j < i ==> parse(docs[j]).Ok?)
  {
    if docs == [] then Ok([])
    else
      var init := docs[..|docs| - 1];
      assert forall i :: 0 <= i < |init| ==> init[i] == docs[i];
      match DocTimes(init, parse)
      case Err(e) => Err(e)
      case Ok(ts) =>
        match parse(docs[|docs| - 1])
        case Err(e) => Err(e)
        case Ok(t) => Ok(ts + [t])
  }

  /** The news dict built for a doc, with its parsed date. */
  function DocNews(doc: Doc, title: Option<string>, topic: Option<string>, time: Option<DateTime>): (r: News)
    requires Keeps(doc, title)
    ensures r.title != [] && r.text != [] && r.cluster != []
  {
    News(doc.title.value, doc.text.value, topic, title.value, time, doc.publisher)
  }

  /** The items the page keeps, given every doc's date. */
  function Kept(docs: seq<Doc>, times: seq<Option<DateTime>>, title: Option<string>, topic: Option<string>): (r: seq<News>)
    requires |times| == |docs|
    ensures |r| <= |docs|
    ensures forall k :: 0 <= k < |r| ==>
      (r[k].title != [] && r[k].text != [] && Filled(title) && r[k].cluster == title.value && r[k].topic == topic)
  {
    if docs == [] then []
    else
      var n := |docs| - 1;
      var init := Kept(docs[..n], times[..n], title, topic);
      if Keeps(docs[n], title) then
        var item := DocNews(docs[n], title, topic, times[n]);
        assert item.title != [] && item.text != [] && item.cluster == title.value && item.topic == topic;
        init + [item]
      else init
  }

  /** Every kept item is the item of a doc with a non-empty title, text and page title. */
  lemma {:induction false} KeptSound(docs: seq<Doc>, times: seq<Option<DateTime>>, title: Option<string>, topic: Option<string>, j: int)
    requires |times| == |docs| && 0 <= j < |Kept(docs, times, title, topic)|
    ensures exists i :: (0 <= i < |docs| && Keeps(docs[i], title) &&
      Kept(docs, times, title, topic)[j] == DocNews(docs[i], title, topic, times[i]))
  {
    var n := |docs| - 1;
    var init, initTimes := docs[..n], times[..n];
    var prev := Kept(init, initTimes, title, topic);
    if j < |prev| {
      KeptSound(init, initTimes, title, topic, j);
      var i :| 0 <= i < n && Keeps(init[i], title) && prev[j] == DocNews(init[i], title, topic, initTimes[i]);
      assert init[i] == docs[i] && initTimes[i] == times[i];
    } else {
      assert Keeps(docs[n], title) && Kept(docs, times, title, topic)[j] == DocNews(docs[n], title, topic, times[n]);
    }
  }

  /** Every doc with a non-empty title, text and page title has its item kept. */
  lemma {:induction false} KeptComplete(docs: seq<Doc>, times: seq<Option<DateTime>>, title: Option<string>, topic: Option<string>, i: int)
    requires |times| == |docs| && 0 <= i < |docs| && Keeps(docs[i], title)
    ensures DocNews(docs[i], title, topic, times[i]) in Kept(docs, times, title, topic)
  {
    var n := |docs| - 1;
    var init, initTimes := docs[..n], times[..n];
    if i < n {
      KeptComplete(init, initTimes, title, topic, i);
      assert init[i] == docs[i] && initTimes[i] == times[i];
    }
  }

  /** The news list a cluster page keeps, or the first exception raised while reading its docs. */
  function KeptNews(title: Option<string>, topic: Option<string>, docs: seq<Doc>,
                    parse: Doc -> Result<Option<DateTime>, Raised>): (r: Result<seq<News>, Raised>)
    ensures r.Ok? <==> forall i :: 0 <= i < |docs| ==> parse(docs[i]).Ok?
    ensures r.Ok? ==> |r.value| <= |docs|
    ensures r.Ok? ==> forall k :: 0 <= k < |r.value| ==>
      (r.value[k].title != [] && r.value[k].text != [] && Filled(title) && r.value[k].cluster == title.value)
  {
    match DocTimes(docs, parse)
    case Err(e) => Err(e)
    case Ok(times) => Ok(Kept(docs, times, title, topic))
  }

  /**
   * The loop of YandexClusterNewsPage.__init__ over the page's docs: parse
   * each date, keep the complete items, and count them. The page passes
   * PageParser(today) as `parse`.
   */
  method ReadClusterPage(title: Option<string>, topic: Option<string>, docs: seq<Doc>,
                         parse: Doc -> Result<Option<DateTime>, Raised>)
    returns (r: Result<ClusterPage, Raised>)
    ensures r == (match KeptNews(title, topic, docs, parse)
                  case Err(e) => Err(e)
                  case Ok(news) => Ok(ClusterPage(title, topic, news, |news|)))
  {
    var news: seq<News> := [];
    ghost var times: seq<Option<DateTime>> := [];
    var i := 0;
    while i < |docs|
      invariant 0 <= i <= |docs|
      invariant DocTimes(docs[..i], parse) == Ok(times)
      invariant news == Kept(docs[..i], times, title, topic)
    {
      var time := parse(docs[i]);
      if time.Err? {
        DocTimesFirstError(docs, parse, i);
        return Err(time.error);
      }
      var prefix := docs[..i + 1];
      assert prefix[..i] == docs[..i] && prefix[i] == docs[i];
      if Keeps(docs[i], title) {
        news := news + [DocNews(docs[i], title, topic, time.value)];
      }
      times := times + [time.value];
      assert times[..i] == times[..|times| - 1];
      i := i + 1;
    }
    assert docs[..i] == docs;
    r := Ok(ClusterPage(title, topic, news, |news|));
  }

  /**
   * With the page's own date parser, a doc without a time element aborts the
   * page with AttributeError, unless an earlier doc's date has raised first.
   */
  lemma PageWithoutTime(title: Option<string>, topic: Option<string>, docs: seq<Doc>, today: Date, i: nat)
    requires ValidDate(today)
    requires i < |docs| && docs[i].time.None?
    requires forall j :: 0 <= j < i ==> DocTime(docs[j], today).Ok?
    ensures KeptNews(title, topic, docs, PageParser(today)) == Err(AttributeError)
  {
    var parse := PageParser(today);
    assert forall j :: 0 <= j < i ==> docs[..i][j] == docs[j];
    DocTimesFirstError(docs, parse, i);
  }

  /** The exception of a page is that of its first doc whose date raises. */
  lemma {:induction false} DocTimesFirstError(docs: seq<Doc>, parse: Doc -> Result<Option<DateTime>, Raised>, i: nat)
    requires i < |docs| && parse(docs[i]).Err? && DocTimes(docs[..i], parse).Ok?
    ensures DocTimes(docs, parse) == Err(parse(docs[i]).error)
    decreases |docs|
  {
    var n := |docs| - 1;
    var init := docs[..n];
    if i < n {
      assert init[..i] == docs[..i] && init[i] == docs[i];
      DocTimesFirstError(init, parse, i);
    } else {
      assert init == docs[..i];
    }
  }
}
