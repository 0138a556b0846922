/**
 * The Python string built-ins the scraper relies on: str.lower, str.split()
 * on whitespace, str.split(sep), int(...) and str(...) of an integer.
 */
module Text {
  import opened Base

  /** The characters for which Python's str.isspace() is true. */
  predicate IsSpace(c: char)
  {
    c == ' ' || ('\t' <= c <= '\r') || ('\U{1C}' <= c <= '\U{1F}') ||
    c == '\U{85}' || c == '\U{A0}' || c == '\U{1680}' ||
    ('\U{2000}' <= c <= '\U{200A}') || c == '\U{2028}' || c == '\U{2029}' ||
    c == '\U{202F}' || c == '\U{205F}' || c == '\U{3000}'
  }

  /** Lower-casing of one character: Latin and Cyrillic capitals. */
  function LowerChar(c: char): char
  {
    if 'A' <= c <= 'Z' then (c as int + 32) as char
    else if '\U{410}' <= c <= '\U{42F}' then (c as int + 32) as char
    else if '\U{400}' <= c <= '\U{40F}' then (c as int + 80) as char
    else c
  }

  function Lower(s: string): (r: string)
    ensures |r| == |s|
    ensures forall k :: 0 <= k < |s| ==> r[k] == LowerChar(s[k])
  {
    if s == [] then [] else [LowerChar(s[0])] + Lower(s[1..])
  }

  /** The non-whitespace characters of s, in order. */
  function NonSpace(s: string): string
  {
    if s == [] then [] else (if IsSpace(s[0]) then [] else [s[0]]) + NonSpace(s[1..])
  }

  function Concat(ws: seq<string>): string
  {
    if ws == [] then [] else ws[0] + Concat(ws[1..])
  }

  predicate IsWord(w: string)
  {
    w != [] && forall k :: 0 <= k < |w| ==> !IsSpace(w[k])
  }

  /** str.split() with no argument: the maximal runs of non-whitespace characters. */
  function Words(s: string): (r: seq<string>)
    ensures forall k :: 0 <= k < |r| ==> IsWord(r[k])
    ensures Concat(r) == NonSpace(s)
  {
    WordsFrom(s, [])
  }

  /** Splitting of s when the word `cur` is already under way. */
  function WordsFrom(s: string, cur: string): (r: seq<string>)
    requires forall k :: 0 <= k < |cur| ==> !IsSpace(cur[k])
    ensures forall k :: 0 <= k < |r| ==> IsWord(r[k])
    ensures Concat(r) == cur + NonSpace(s)
    decreases |s|
  {
    if s == [] then
      if cur == [] then [] else [cur]
    else if IsSpace(s[0]) then
      if cur == [] then WordsFrom(s[1..], [])
      else
        var rest := WordsFrom(s[1..], []);
        assert Concat([cur] + rest) == cur + Concat(rest) by {
          assert ([cur] + rest)[1..] == rest;
        }
        [cur] + rest
    else
      var r := WordsFrom(s[1..], cur + [s[0]]);
      assert cur + NonSpace(s) == (cur + [s[0]]) + NonSpace(s[1..]);
      r
  }

  predicate AllSpace(s: string)
  {
    forall k :: 0 <= k < |s| ==> IsSpace(s[k])
  }

  /**
   * The words ws laid out with the whitespace runs gaps around them:
   * gaps[0] + ws[0] + gaps[1] + ... + ws[n-1] + gaps[n].
   */
  function Spaced(gaps: seq<string>, ws: seq<string>): string
    requires |gaps| == |ws| + 1
  {
    if ws == [] then gaps[0] else gaps[0] + (ws[0] + Spaced(gaps[1..], ws[1..]))
  }

  /**
   * str.split() cuts exactly at whitespace: words laid out with whitespace
   * runs between them (non-empty between two words, possibly empty at
   * either end) come back one by one, in order.
   */
  lemma {:induction false} WordsSpaced(gaps: seq<string>, ws: seq<string>)
    requires |gaps| == |ws| + 1
    requires forall k :: 0 <= k < |ws| ==> IsWord(ws[k])
    requires forall k :: 0 <= k < |gaps| ==> AllSpace(gaps[k])
    requires forall k :: 0 < k < |ws| ==> gaps[k] != []
    ensures Words(Spaced(gaps, ws)) == ws
    decreases |ws|
  {
    if ws == [] {
      LeadingSpace(gaps[0], []);
      assert gaps[0] + [] == gaps[0];
    } else {
      var w, tail := ws[0], Spaced(gaps[1..], ws[1..]);
      LeadingSpace(gaps[0], w + tail);
      WordsFromRun(w, tail, []);
      assert [] + w == w;
      WordsSpaced(gaps[1..], ws[1..]);
      if |ws| == 1 {
        assert tail == gaps[1];
      } else {
        assert tail[..|gaps[1]|] == gaps[1];
      }
      WordEnds(tail, w);
    }
  }

  /** Whitespace before the text changes nothing when no word is under way. */
  lemma {:induction false} LeadingSpace(sp: string, rest: string)
    requires AllSpace(sp)
    ensures WordsFrom(sp + rest, []) == WordsFrom(rest, [])
    decreases |sp|
  {
    if sp != [] {
      assert (sp + rest)[1..] == sp[1..] + rest;
      LeadingSpace(sp[1..], rest);
    } else {
      assert sp + rest == rest;
    }
  }

  /** A string of whitespace only, lower-cased, has no words. */
  lemma BlankHasNoWords(s: string)
    requires AllSpace(s)
    ensures Words(Lower(s)) == []
  {
    assert AllSpace(Lower(s));
    LeadingSpace(Lower(s), []);
    assert Lower(s) + [] == Lower(s);
  }

  /** A run of non-whitespace characters extends the word under way. */
  lemma {:induction false} WordsFromRun(w: string, rest: string, cur: string)
    requires forall k :: 0 <= k < |w| ==> !IsSpace(w[k])
    requires forall k :: 0 <= k < |cur| ==> !IsSpace(cur[k])
    ensures WordsFrom(w + rest, cur) == WordsFrom(rest, cur + w)
    decreases |w|
  {
    if w == [] {
      assert w + rest == rest && cur + w == cur;
    } else {
      assert (w + rest)[1..] == w[1..] + rest;
      WordsFromRun(w[1..], rest, cur + [w[0]]);
      assert cur + [w[0]] + w[1..] == cur + w;
    }
  }

  /** The end of the text, or a whitespace character, closes the word under way. */
  lemma WordEnds(s: string, cur: string)
    requires IsWord(cur)
    requires s == [] || IsSpace(s[0])
    ensures WordsFrom(s, cur) == [cur] + WordsFrom(s, [])
  {
  }

  /** str.split(sep) for a one-character separator. */
  function Split(s: string, sep: char): (r: seq<string>)
    ensures |r| >= 1
    ensures forall k :: 0 <= k < |r| ==> sep !in r[k]
  {
    if s == [] then [[]]
    else
      var rest := Split(s[1..], sep);
      if s[0] == sep then [[]] + rest
      else [[s[0]] + rest[0]] + rest[1..]
  }

  /** sep.join(parts), the inverse of Split. */
  function Join(parts: seq<string>, sep: char): string
    requires |parts| >= 1
  {
    if |parts| == 1 then parts[0] else parts[0] + [sep] + Join(parts[1..], sep)
  }

  lemma {:induction false} JoinSplit(s: string, sep: char)
    ensures Join(Split(s, sep), sep) == s
  {
    if s != [] {
      var rest := Split(s[1..], sep);
      JoinSplit(s[1..], sep);
      if s[0] == sep {
        assert ([[]] + rest)[1..] == rest;
      } else {
        var r := Split(s, sep);
        if |rest| == 1 {
          assert r == [[s[0]] + rest[0]];
        } else {
          assert r[1..] == rest[1..];
          assert Join(rest, sep) == rest[0] + [sep] + Join(rest[1..], sep);
        }
      }
    }
  }

  lemma {:induction false} SplitJoin(parts: seq<string>, sep: char)
    requires |parts| >= 1
    requires forall k :: 0 <= k < |parts| ==> sep !in parts[k]
    ensures Split(Join(parts, sep), sep) == parts
  {
    if |parts| == 1 {
      SplitNoSep(parts[0], sep);
    } else {
      SplitJoin(parts[1..], sep);
      SplitPrefix(parts[0], Join(parts[1..], sep), sep);
      assert Join(parts, sep) == parts[0] + ([sep] + Join(parts[1..], sep));
      assert [parts[0]] + parts[1..] == parts;
    }
  }

  lemma {:induction false} SplitNoSep(s: string, sep: char)
    requires sep !in s
    ensures Split(s, sep) == [s]
  {
    if s != [] {
      SplitNoSep(s[1..], sep);
      assert [s[0]] + s[1..] == s;
    }
  }

  /** Splitting a separator-free word followed by the separator and a tail. */
  lemma {:induction false} SplitPrefix(w: string, tail: string, sep: char)
    requires sep !in w
    ensures Split(w + [sep] + tail, sep) == [w] + Split(tail, sep)
  {
    if w == [] {
      assert w + [sep] + tail == [sep] + tail;
      assert ([sep] + tail)[1..] == tail;
    } else {
      var whole := w + [sep] + tail;
      assert whole[0] == w[0] && whole[1..] == w[1..] + [sep] + tail;
      SplitPrefix(w[1..], tail, sep);
      var rest := [w[1..]] + Split(tail, sep);
      assert rest[0] == w[1..] && rest[1..] == Split(tail, sep);
      assert [w[0]] + w[1..] == w;
    }
  }

  /** The text before and after the first occurrence of sep, if there is one. */
  function SplitFirst(s: string, sep: char): (r: Option<(string, string)>)
    ensures r.Some? <==> sep in s
    ensures r.Some? ==> sep !in r.value.0 && s == r.value.0 + [sep] + r.value.1
  {
    if s == [] then None
    else if s[0] == sep then Some(([], s[1..]))
    else match SplitFirst(s[1..], sep)
      case None => None
      case Some((before, after)) => Some(([s[0]] + before, after))
  }

  lemma {:induction false} SplitFirstAt(before: string, sep: char, after: string)
    requires sep !in before
    ensures SplitFirst(before + [sep] + after, sep) == Some((before, after))
  {
    if before != [] {
      var s := before + [sep] + after;
      assert s[0] == before[0] && s[1..] == before[1..] + [sep] + after;
      SplitFirstAt(before[1..], sep, after);
      assert [before[0]] + before[1..] == before;
    } else {
      assert before + [sep] + after == [sep] + after;
    }
  }

  predicate IsDigit(c: char)
  {
    '0' <= c <= '9'
  }

  predicate AllDigits(s: string)
  {
    forall k :: 0 <= k < |s| ==> IsDigit(s[k])
  }

  /** The value of a decimal numeral, most significant digit first. */
  function DigitsValue(s: string): nat
    requires AllDigits(s)
  {
    if s == [] then 0 else DigitsValue(s[..|s| - 1]) * 10 + (s[|s| - 1] as int - '0' as int)
  }

  /** int(s): an optional sign followed by at least one decimal digit. */
  function ParseInt(s: string): (r: Option<int>)
    ensures r.Some? ==> exists k :: 0 <= k < |s| && IsDigit(s[k])
    ensures r.Some? <==> s != [] && (AllDigits(s) || ((s[0] == '+' || s[0] == '-') && |s| > 1 && AllDigits(s[1..])))
    ensures r.Some? && s[0] != '-' ==> r.value >= 0
  {
    if s != [] && (s[0] == '+' || s[0] == '-') then
      var digits := s[1..];
      if digits != [] && AllDigits(digits) then
        assert IsDigit(s[1]);
        var magnitude: int := DigitsValue(digits);
        Some(if s[0] == '-' then -magnitude else magnitude)
      else None
    else if s != [] && AllDigits(s) then
      assert IsDigit(s[0]);
      Some(DigitsValue(s))
    else None
  }

  /** [int(x) for x in parts], failing as soon as one of them fails. */
  function ParseInts(parts: seq<string>): (r: Option<seq<int>>)
    ensures r.Some? ==> |r.value| == |parts|
    ensures r.Some? <==> forall k :: 0 <= k < |parts| ==> ParseInt(parts[k]).Some?
    ensures r.Some? ==> forall k :: 0 <= k < |parts| ==> r.value[k] == ParseInt(parts[k]).value
  {
    if parts == [] then Some([])
    else match (ParseInt(parts[0]), ParseInts(parts[1..]))
      case (Some(x), Some(xs)) => Some([x] + xs)
      case _ => None
  }

  function DigitChar(d: int): char
    requires 0 <= d < 10
  {
    ('0' as int + d) as char
  }

  function NatToString(n: nat): (r: string)
    ensures r != [] && AllDigits(r)
  {
    if n < 10 then [DigitChar(n)] else NatToString(n / 10) + [DigitChar(n % 10)]
  }

  /** str(i) of a Python int. */
  function IntToString(i: int): string
  {
    if i < 0 then "-" + NatToString(-i) else NatToString(i)
  }

  lemma {:induction false} NatToStringValue(n: nat)
    ensures DigitsValue(NatToString(n)) == n
  {
    if n >= 10 {
      var s := NatToString(n);
      NatToStringValue(n / 10);
      assert s[..|s| - 1] == NatToString(n / 10);
    }
  }

  /** A numeral of zeros only is worth 0. */
  lemma {:induction false} ZerosValue(z: string)
    requires forall k :: 0 <= k < |z| ==> z[k] == '0'
    ensures AllDigits(z) && DigitsValue(z) == 0
  {
    if z != [] {
      ZerosValue(z[..|z| - 1]);
    }
  }

  /** Leading zeros do not change the value of a numeral. */
  lemma {:induction false} LeadingZerosValue(z: string, d: string)
    requires forall k :: 0 <= k < |z| ==> z[k] == '0'
    requires AllDigits(d)
    ensures AllDigits(z + d) && DigitsValue(z + d) == DigitsValue(d)
    decreases |d|
  {
    ZerosValue(z);
    if d == [] {
      assert z + d == z;
    } else {
      var init := d[..|d| - 1];
      LeadingZerosValue(z, init);
      assert (z + d)[..|z + d| - 1] == z + init;
    }
  }

  /**
   * int() of any numeral it accepts: an optional sign, any number of
   * leading zeros, then the decimal digits of n, stands for n (or -n after
   * a minus sign), as "09" and "+5" do.
   */
  lemma ParseIntNumeral(sign: string, z: string, n: nat)
    requires sign == "" || sign == "+" || sign == "-"
    requires forall k :: 0 <= k < |z| ==> z[k] == '0'
    ensures ParseInt(sign + z + NatToString(n)) == Some(if sign == "-" then -(n as int) else n as int)
  {
    var digits := z + NatToString(n);
    LeadingZerosValue(z, NatToString(n));
    NatToStringValue(n);
    assert sign + z + NatToString(n) == sign + digits;
    if sign == "" {
      assert sign + digits == digits;
      ParseIntDigits(digits);
    } else {
      ParseIntSigned(sign[0], digits);
      assert sign == [sign[0]];
    }
  }

  lemma ParseIntDigits(d: string)
    requires d != [] && AllDigits(d)
    ensures ParseInt(d) == Some(DigitsValue(d))
  {
    assert IsDigit(d[0]);
  }

  lemma ParseIntSigned(c: char, d: string)
    requires (c == '+' || c == '-') && d != [] && AllDigits(d)
    ensures ParseInt([c] + d) == Some(if c == '-' then -(DigitsValue(d) as int) else DigitsValue(d) as int)
  {
    var s := [c] + d;
    assert s[0] == c && s[1..] == d;
  }

  /** int(str(i)) == i. */
  lemma {:induction false} IntToStringRoundTrip(i: int)
    ensures ParseInt(IntToString(i)) == Some(i)
  {
    if i < 0 {
      var digits := NatToString(-i);
      NatToStringValue(-i);
      var s := IntToString(i);
      assert s == "-" + digits;
      assert s[0] == '-' && s[1..] == digits;
    } else {
      NatToStringValue(i);
      var s := NatToString(i);
      assert s[0] != '+' && s[0] != '-' by { assert IsDigit(s[0]); }
    }
  }
}
