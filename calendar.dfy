/**
 * The events calendar (js/calendario.js): the quote-aware CSV field splitter, the
 * CSV-to-event conversion, the keyword classification of event types and their
 * colours, the 42-cell month grid and the day/month/year split of event dates.
 */
module Calendar {
  import opened JsText

  // ---------------------------------------------------------------------------
  // One CSV line

  /**
   * Whether position `i` of the line lies inside a quoted section: every `"` before it
   * toggles the state, starting outside.
   */
  function InsideQuotes(text: string, i: nat): bool
    requires i <= |text|
  {
    if i == 0 then false else InsideQuotes(text, i - 1) != (text[i - 1] == '"')
  }

  /** Number of double-quote characters in `s`. */
  function QuoteCount(s: string): nat {
    if |s| == 0 then 0 else QuoteCount(s[..|s| - 1]) + (if s[|s| - 1] == '"' then 1 else 0)
  }

  /** A position is inside quotes exactly when an odd number of quotes precede it. */
  lemma {:induction false} InsideQuotesParity(text: string, i: nat)
    requires i <= |text|
    ensures InsideQuotes(text, i) <==> QuoteCount(text[..i]) % 2 == 1
  {
    if i > 0 {
      InsideQuotesParity(text, i - 1);
      assert text[..i][..i - 1] == text[..i - 1];
    }
  }

  /** Position `i` holds a comma that ends a field: a comma outside any quoted section. */
  predicate IsSeparator(text: string, i: int) {
    0 <= i < |text| && text[i] == ',' && !InsideQuotes(text, i)
  }

  /**
   * The separating commas below position `n`, in increasing order; each field starts
   * no later than the separator that ends it.
   */
  function SeparatorsBelow(text: string, n: nat): (seps: seq<nat>)
    requires n <= |text|
    ensures forall k :: 0 <= k < |seps| ==> seps[k] < n && IsSeparator(text, seps[k])
    ensures forall k {:trigger FieldStart(seps, k)} :: 0 <= k < |seps| ==> FieldStart(seps, k) <= seps[k]
  {
    if n == 0 then []
    else
      var prev := SeparatorsBelow(text, n - 1);
      if IsSeparator(text, n - 1) then FieldStartExtend(prev, n - 1); prev + [n - 1] else prev
  }

  /** Appending a separator leaves where the earlier fields start unchanged. */
  lemma FieldStartExtend(seps: seq<nat>, x: nat)
    ensures forall k :: 0 <= k <= |seps| ==> FieldStart(seps + [x], k) == FieldStart(seps, k)
  {
  }

  predicate Increasing(s: seq<nat>) {
    forall a, b :: 0 <= a < b < |s| ==> s[a] < s[b]
  }

  /** The separators are listed strictly increasing. */
  lemma {:induction false} SeparatorsIncreasing(text: string, n: nat)
    requires n <= |text|
    ensures Increasing(SeparatorsBelow(text, n))
  {
    if n > 0 {
      SeparatorsIncreasing(text, n - 1);
      var prev := SeparatorsBelow(text, n - 1);
      if IsSeparator(text, n - 1) {
        var seps := prev + [n - 1];
        assert SeparatorsBelow(text, n) == seps;
        forall a, b | 0 <= a < b < |seps| ensures seps[a] < seps[b] {
          if b < |prev| {
            assert seps[a] == prev[a] && seps[b] == prev[b];
          } else {
            assert seps[a] == prev[a] && prev[a] < n - 1;
          }
        }
      } else {
        assert SeparatorsBelow(text, n) == prev;
      }
    }
  }

  /** Every separating comma below `n` is listed. */
  lemma {:induction false} SeparatorsComplete(text: string, n: nat)
    requires n <= |text|
    ensures forall i :: 0 <= i < n && IsSeparator(text, i) ==> i in SeparatorsBelow(text, n)
  {
    if n > 0 {
      SeparatorsComplete(text, n - 1);
      var prev := SeparatorsBelow(text, n - 1);
      if IsSeparator(text, n - 1) {
        assert SeparatorsBelow(text, n) == prev + [n - 1];
      }
    }
  }

  function Separators(text: string): seq<nat> {
    SeparatorsBelow(text, |text|)
  }

  function FieldStart(seps: seq<nat>, k: nat): nat
    requires k <= |seps|
  {
    if k == 0 then 0 else seps[k - 1] + 1
  }

  function FieldEnd(text: string, seps: seq<nat>, k: nat): nat
    requires k <= |seps|
  {
    if k < |seps| then seps[k] else |text|
  }

  /**
   * A raw field as the parser keeps it: trimmed, and with one pair of enclosing quotes
   * removed when the trimmed text both starts and ends with `"` (a lone `"` becomes
   * empty, as `slice(1, -1)` does).
   */
  function Unquote(raw: string): (field: string)
    ensures |field| <= |Trim(raw)|
    ensures '"' !in Trim(raw) ==> field == Trim(raw)
  {
    var t := Trim(raw);
    if |t| > 0 && t[0] == '"' && t[|t| - 1] == '"' then
      (if |t| >= 2 then t[1..|t| - 1] else "")
    else t
  }

  /**
   * Surrounding whitespace goes, then exactly one pair of quotes: a quoted value comes back
   * as written, inner quotes included, whatever whitespace pads it, and text not wrapped in
   * quotes is only trimmed.
   */
  lemma UnquoteSpec(value: string, pre: string, post: string, raw: string)
    ensures (forall c :: c in pre ==> IsWhitespace(c)) && (forall c :: c in post ==> IsWhitespace(c)) ==>
      Unquote(pre + "\"" + value + "\"" + post) == value
    ensures !(StartsWith(Trim(raw), "\"") && |Trim(raw)| > 0 && Trim(raw)[|Trim(raw)| - 1] == '"') ==>
      Unquote(raw) == Trim(raw)
  {
    if (forall c :: c in pre ==> IsWhitespace(c)) && (forall c :: c in post ==> IsWhitespace(c)) {
      var q := "\"" + value + "\"";
      TrimPadded(pre, q, post);
      assert pre + "\"" + value + "\"" + post == pre + q + post;
      assert q[1..|q| - 1] == value;
    }
  }

  /**
   * The fields of one CSV line, specified by where its separating commas are: field `k`
   * is the unquoted text between separator `k - 1` and separator `k`.
   */
  function CsvFields(text: string): (fields: seq<string>)
    ensures |fields| == |Separators(text)| + 1
  {
    var seps := Separators(text);
    seq(|seps| + 1, k requires 0 <= k <= |seps| =>
      Unquote(text[FieldStart(seps, k)..FieldEnd(text, seps, k)]))
  }

  /** The fields `parseCSVLine` has completed before position `n`: one per separator below `n`. */
  ghost predicate FieldsBelow(text: string, n: nat, done: seq<string>)
    requires n <= |text|
  {
    var seps := SeparatorsBelow(text, n);
    |done| == |seps| &&
    forall k {:trigger done[k]} :: 0 <= k < |done| ==>
      done[k] == Unquote(text[FieldStart(seps, k)..seps[k]])
  }

  /** Where the field in progress at position `n` starts. */
  function OpenFieldStart(text: string, n: nat): (start: nat)
    requires n <= |text|
    ensures start <= n
  {
    var seps := SeparatorsBelow(text, n);
    if |seps| == 0 then 0 else FieldStart(seps, |seps|)
  }

  /** Any other character leaves the completed fields and the open field as they are. */
  lemma FieldsPastCharacter(text: string, i: nat, done: seq<string>)
    requires i < |text| && FieldsBelow(text, i, done) && !IsSeparator(text, i)
    ensures FieldsBelow(text, i + 1, done)
    ensures OpenFieldStart(text, i + 1) == OpenFieldStart(text, i)
  {
    assert SeparatorsBelow(text, i + 1) == SeparatorsBelow(text, i);
  }

  /** The field that a separating comma completes joins the finished ones. */
  lemma FieldsAtSeparator(text: string, i: nat, done: seq<string>)
    requires i < |text| && FieldsBelow(text, i, done) && IsSeparator(text, i)
    ensures FieldsBelow(text, i + 1, done + [Unquote(text[OpenFieldStart(text, i)..i])])
    ensures OpenFieldStart(text, i + 1) == i + 1
  {
    var seps := SeparatorsBelow(text, i);
    var next := done + [Unquote(text[OpenFieldStart(text, i)..i])];
    FieldStartExtend(seps, i);
    assert SeparatorsBelow(text, i + 1) == seps + [i];
    var field := Unquote(text[OpenFieldStart(text, i)..i]);
    assert FieldStart(seps + [i], |done|) == OpenFieldStart(text, i);
    assert (seps + [i])[|done|] == i;
    forall k | 0 <= k < |next|
      ensures next[k] == Unquote(text[FieldStart(seps + [i], k)..(seps + [i])[k]])
    {
      if k < |done| {
        assert next[k] == done[k] && (seps + [i])[k] == seps[k];
      } else {
        assert next[k] == field;
      }
    }
  }

  /** At the end of the line the field in progress is the last one. */
  lemma FieldsDone(text: string, done: seq<string>)
    requires FieldsBelow(text, |text|, done)
    ensures done + [Unquote(text[OpenFieldStart(text, |text|)..])] == CsvFields(text)
  {
    var seps := Separators(text);
    var result := done + [Unquote(text[OpenFieldStart(text, |text|)..])];
    var fields := CsvFields(text);
    forall k | 0 <= k < |result|
      ensures result[k] == fields[k]
    {
      if k < |seps| {
        assert result[k] == done[k];
        assert fields[k] == Unquote(text[FieldStart(seps, k)..seps[k]]);
      } else {
        assert text[OpenFieldStart(text, |text|)..] == text[FieldStart(seps, k)..FieldEnd(text, seps, k)];
      }
    }
  }

  /** `parseCSVLine`: a single left-to-right pass toggling `inQuotes` on every `"`. */
  method ParseCsvLine(text: string) returns (result: seq<string>)
    ensures result == CsvFields(text)
  {
    result := [];
    var startValue := 0;
    var inQuotes := false;
    for i := 0 to |text|
      invariant inQuotes == InsideQuotes(text, i)
      invariant startValue == OpenFieldStart(text, i)
      invariant FieldsBelow(text, i, result)
    {
      if text[i] == '"' {
        FieldsPastCharacter(text, i, result);
        inQuotes := !inQuotes;
      } else if text[i] == ',' && !inQuotes {
        FieldsAtSeparator(text, i, result);
        result := result + [Unquote(text[startValue..i])];
        startValue := i + 1;
      } else {
        FieldsPastCharacter(text, i, result);
      }
    }
    FieldsDone(text, result);
    result := result + [Unquote(text[startValue..])];
  }

  /** The line has one field more than it has separating commas, so never fewer than one. */
  lemma FieldCount(text: string)
    ensures |CsvFields(text)| == |set i: nat | i < |text| && IsSeparator(text, i)| + 1
    ensures |CsvFields(text)| >= 1
  {
    SeparatorCount(text, |text|);
  }

  /** As many separators are listed below `n` as there are separating positions below `n`. */
  lemma {:induction false} SeparatorCount(text: string, n: nat)
    requires n <= |text|
    ensures |SeparatorsBelow(text, n)| == |set i: nat | i < n && IsSeparator(text, i)|
  {
    if n > 0 {
      SeparatorCount(text, n - 1);
      var below := set i: nat | i < n - 1 && IsSeparator(text, i);
      if IsSeparator(text, n - 1) {
        assert (set i: nat | i < n && IsSeparator(text, i)) == below + {n - 1};
        assert |below + {n - 1}| == |below| + 1;
      } else {
        assert (set i: nat | i < n && IsSeparator(text, i)) == below;
      }
    } else {
      assert (set i: nat | i < n && IsSeparator(text, i)) == {};
    }
  }

  /**
   * A comma between an opening quote and its closing quote never separates fields:
   * the quote only toggles the parser's `inQuotes` flag.
   */
  lemma {:induction false} QuotedCommaKept(text: string, open: nat, i: nat)
    requires open < i <= |text| && text[open] == '"' && !InsideQuotes(text, open)
    requires forall j :: open < j < i ==> text[j] != '"'
    ensures InsideQuotes(text, i)
    ensures i < |text| ==> !IsSeparator(text, i)
  {
    if i > open + 1 {
      QuotedCommaKept(text, open, i - 1);
    }
  }

  lemma {:induction false} NoQuotesOutside(text: string, i: nat)
    requires i <= |text| && '"' !in text
    ensures !InsideQuotes(text, i)
  {
    if i > 0 {
      assert text[i - 1] in text;
      NoQuotesOutside(text, i - 1);
    }
  }

  /**
   * On a line without quotes the parser is a plain `split(',')` with every piece trimmed:
   * the quote-aware splitter and the naive one agree.
   */
  lemma {:induction false} UnquotedLineIsSplit(text: string)
    requires '"' !in text
    ensures |CsvFields(text)| == |Split(text, ',')|
    ensures forall k :: 0 <= k < |CsvFields(text)| ==> CsvFields(text)[k] == Trim(Split(text, ',')[k])
  {
    var seps := Separators(text);
    forall i | 0 <= i < |text|
      ensures IsSeparator(text, i) <==> text[i] == ','
    {
      NoQuotesOutside(text, i);
    }
    SeparatorsComplete(text, |text|);
    SeparatorsIncreasing(text, |text|);
    SplitAtCommas(text, seps);
    forall k | 0 <= k <= |seps|
      ensures CsvFields(text)[k] == Trim(Split(text, ',')[k])
    {
      var raw := text[FieldStart(seps, k)..FieldEnd(text, seps, k)];
      assert forall c :: c in raw ==> c in text;
      assert '"' !in Trim(raw) by {
        TrimSpec(raw);
        assert forall c :: c in Trim(raw) ==> c in raw;
      }
    }
  }

  /** The positions of `seps` after the first, re-based past the first one. */
  function ShiftSeps(seps: seq<nat>): (r: seq<nat>)
    requires |seps| > 0 && Increasing(seps)
    ensures |r| == |seps| - 1
    ensures forall k :: 0 <= k < |r| ==> r[k] + seps[0] + 1 == seps[k + 1]
  {
    seq(|seps| - 1, k requires 0 <= k < |seps| - 1 => seps[k + 1] - (seps[0] + 1))
  }

  /** `seps` lists positions of `text` in increasing order. */
  predicate OrderedCuts(text: string, seps: seq<nat>) {
    Increasing(seps) && forall k :: 0 <= k < |seps| ==> seps[k] < |text|
  }

  /** `seps` lists exactly the commas of `text`, in increasing order. */
  predicate CommaPositions(text: string, seps: seq<nat>) {
    && OrderedCuts(text, seps)
    && (forall k :: 0 <= k < |seps| ==> text[seps[k]] == ',')
    && (forall i :: 0 <= i < |text| && text[i] == ',' ==> i in seps)
  }

  /** The first listed comma is the first comma, and the rest describe the text after it. */
  lemma CommaPositionsShift(text: string, seps: seq<nat>)
    requires CommaPositions(text, seps) && |seps| > 0
    ensures IndexOf(text, ',') == seps[0]
    ensures CommaPositions(text[seps[0] + 1..], ShiftSeps(seps))
  {
    FirstListedComma(text, seps);
    var rest, seps' := text[seps[0] + 1..], ShiftSeps(seps);
    ShiftedCuts(text, seps);
    forall k | 0 <= k < |seps'| ensures rest[seps'[k]] == ',' {
      assert rest[seps'[k]] == text[seps[k + 1]];
    }
    ShiftedComplete(text, seps);
  }

  /** The smallest listed position is where the first comma is. */
  lemma FirstListedComma(text: string, seps: seq<nat>)
    requires CommaPositions(text, seps) && |seps| > 0
    ensures IndexOf(text, ',') == seps[0]
  {
    var i := IndexOf(text, ',');
    assert text[seps[0]] == ',';
    assert i in seps;
    var m :| 0 <= m < |seps| && seps[m] == i;
    assert seps[0] <= seps[m];
  }

  /** Re-based past the first position, the later positions stay ordered and in range. */
  lemma ShiftedCuts(text: string, seps: seq<nat>)
    requires OrderedCuts(text, seps) && |seps| > 0
    ensures OrderedCuts(text[seps[0] + 1..], ShiftSeps(seps))
  {
    var seps' := ShiftSeps(seps);
    forall a, b | 0 <= a < b < |seps'| ensures seps'[a] < seps'[b] {
      assert seps[a + 1] < seps[b + 1];
    }
  }

  /** Every comma after the first one is listed, re-based. */
  lemma ShiftedComplete(text: string, seps: seq<nat>)
    requires CommaPositions(text, seps) && |seps| > 0
    ensures var rest := text[seps[0] + 1..];
      forall j :: 0 <= j < |rest| && rest[j] == ',' ==> j in ShiftSeps(seps)
  {
    var i := seps[0];
    var rest, seps' := text[i + 1..], ShiftSeps(seps);
    forall j | 0 <= j < |rest| && rest[j] == ','
      ensures j in seps'
    {
      assert text[j + i + 1] == ',';
      assert j + i + 1 in seps;
      var m :| 0 <= m < |seps| && seps[m] == j + i + 1;
      assert m > 0;
      assert seps'[m - 1] == j;
    }
  }

  /** A field of the text after the first comma is a field of the whole text, one further on. */
  lemma FieldShift(text: string, seps: seq<nat>, k: nat)
    requires OrderedCuts(text, seps) && 0 < k <= |seps|
    ensures var rest, seps' := text[seps[0] + 1..], ShiftSeps(seps);
      rest[FieldStart(seps', k - 1)..FieldEnd(rest, seps', k - 1)]
      == text[FieldStart(seps, k)..FieldEnd(text, seps, k)]
  {
    var i := seps[0];
    var rest, seps' := text[i + 1..], ShiftSeps(seps);
    var a, b := FieldStart(seps', k - 1), FieldEnd(rest, seps', k - 1);
    assert a + i + 1 == FieldStart(seps, k);
    assert b + i + 1 == FieldEnd(text, seps, k);
  }

  /** The pieces of `split(',')` are the text between consecutive positions of `seps`. */
  ghost predicate SplitMatches(text: string, seps: seq<nat>)
    requires OrderedCuts(text, seps)
  {
    var parts := Split(text, ',');
    |parts| == |seps| + 1 &&
    forall k :: 0 <= k <= |seps| ==> parts[k] == text[FieldStart(seps, k)..FieldEnd(text, seps, k)]
  }

  /** If `split` matches the commas after the first one, it matches them all. */
  lemma SplitMatchesStep(text: string, seps: seq<nat>)
    requires OrderedCuts(text, seps) && |seps| > 0
    requires IndexOf(text, ',') == seps[0]
    requires OrderedCuts(text[seps[0] + 1..], ShiftSeps(seps))
    requires SplitMatches(text[seps[0] + 1..], ShiftSeps(seps))
    ensures SplitMatches(text, seps)
  {
    SplitAtFirstComma(text, seps[0]);
    SplitLaterPieces(text, seps);
  }

  /** The pieces after the first comma are the fields after the first separator. */
  lemma SplitLaterPieces(text: string, seps: seq<nat>)
    requires OrderedCuts(text, seps) && |seps| > 0
    requires OrderedCuts(text[seps[0] + 1..], ShiftSeps(seps))
    requires SplitMatches(text[seps[0] + 1..], ShiftSeps(seps))
    requires Split(text, ',') == [text[..seps[0]]] + Split(text[seps[0] + 1..], ',')
    ensures forall k :: 0 < k <= |seps| ==>
      Split(text, ',')[k] == text[FieldStart(seps, k)..FieldEnd(text, seps, k)]
  {
    var i := seps[0];
    var rest, seps' := text[i + 1..], ShiftSeps(seps);
    var tail := Split(rest, ',');
    forall k | 0 < k <= |seps|
      ensures Split(text, ',')[k] == text[FieldStart(seps, k)..FieldEnd(text, seps, k)]
    {
      assert tail[k - 1] == rest[FieldStart(seps', k - 1)..FieldEnd(rest, seps', k - 1)];
      SplitPieceMatches(text, seps, k, tail);
    }
  }

  /** `split` cuts at the first comma and splits the rest. */
  lemma SplitAtFirstComma(text: string, i: nat)
    requires i < |text| && IndexOf(text, ',') == i
    ensures Split(text, ',') == [text[..i]] + Split(text[i + 1..], ',')
  {
  }

  /** Piece `k > 0` of the split is piece `k - 1` of the split after the first comma. */
  lemma SplitPieceMatches(text: string, seps: seq<nat>, k: nat, tail: seq<string>)
    requires OrderedCuts(text, seps) && 0 < k <= |seps|
    requires Split(text, ',') == [text[..seps[0]]] + tail
    requires k - 1 < |tail|
    requires var rest, seps' := text[seps[0] + 1..], ShiftSeps(seps);
      tail[k - 1] == rest[FieldStart(seps', k - 1)..FieldEnd(rest, seps', k - 1)]
    ensures Split(text, ',')[k] == text[FieldStart(seps, k)..FieldEnd(text, seps, k)]
  {
    FieldShift(text, seps, k);
  }

  /** When the separators are exactly the commas, they cut the line where `split` does. */
  lemma {:induction false} SplitAtCommas(text: string, seps: seq<nat>)
    requires CommaPositions(text, seps)
    ensures SplitMatches(text, seps)
    decreases |text|
  {
    if |seps| == 0 {
      assert IndexOf(text, ',') == |text|;
      assert Split(text, ',') == [text];
    } else {
      CommaPositionsShift(text, seps);
      SplitAtCommas(text[seps[0] + 1..], ShiftSeps(seps));
      SplitMatchesStep(text, seps);
    }
  }

  // ---------------------------------------------------------------------------
  // The whole sheet

  /** One event row of the sheet; `eventType` is the sheet's `type` column. */
  datatype Event = Event(
    timestamp: string, name: string, date: string, place: string,
    eventType: string, link: string, whatsapp: string, description: string)

  /** The event a row of at least six fields describes; the two optional columns default to `''`. */
  function EventOf(row: seq<string>): (e: Event)
    requires |row| >= 6
    ensures e.timestamp == row[0] && e.name == row[1] && e.date == row[2]
    ensures e.place == row[3] && e.eventType == row[4] && e.link == row[5]
    ensures e.whatsapp == (if |row| > 6 then row[6] else "")
    ensures e.description == (if |row| > 7 then row[7] else "")
  {
    Event(row[0], row[1], row[2], row[3], row[4], row[5],
          if |row| > 6 then row[6] else "",
          if |row| > 7 then row[7] else "")
  }

  /** The lines that are not blank once trimmed, in their original order. */
  function NonBlank(lines: seq<string>): seq<string> {
    if |lines| == 0 then []
    else NonBlank(lines[..|lines| - 1])
         + (if Trim(lines[|lines| - 1]) != "" then [lines[|lines| - 1]] else [])
  }

  /** Filtering two runs of lines one after the other is filtering them together. */
  lemma {:induction false} NonBlankAppend(a: seq<string>, b: seq<string>)
    ensures NonBlank(a + b) == NonBlank(a) + NonBlank(b)
    decreases |b|
  {
    if |b| > 0 {
      var init := b[..|b| - 1];
      NonBlankAppend(a, init);
      assert (a + b)[..|a + b| - 1] == a + init;
      assert (a + b)[|a + b| - 1] == b[|b| - 1];
    } else {
      assert a + b == a;
    }
  }

  /** A single line is kept exactly when it is not blank. */
  lemma NonBlankSingle(line: string)
    ensures NonBlank([line]) == if Trim(line) != "" then [line] else []
  {
    assert [line][..0] == [];
  }

  /** `text.split('\n').filter(line => line.trim() !== '')`. */
  function SheetLines(text: string): seq<string> {
    NonBlank(Split(text, '\n'))
  }

  /** The line filter keeps exactly the lines that are not whitespace-only. */
  lemma {:induction false} NonBlankSpec(lines: seq<string>)
    ensures forall l :: l in NonBlank(lines) <==> l in lines && Trim(l) != ""
    ensures |NonBlank(lines)| <= |lines|
  {
    if |lines| > 0 {
      var init := lines[..|lines| - 1];
      NonBlankSpec(init);
      assert lines == init + [lines[|lines| - 1]];
    }
  }

  /** The events of a run of data rows: a row with fewer than six fields gives none. */
  function Records(rows: seq<string>): seq<Event> {
    if |rows| == 0 then []
    else Records(rows[..|rows| - 1]) + RowEvents(rows[|rows| - 1])
  }

  function RowEvents(row: string): seq<Event> {
    var fields := CsvFields(row);
    if |fields| >= 6 then [EventOf(fields)] else []
  }

  /** Conversion works row by row: the events of two runs of rows are concatenated. */
  lemma {:induction false} RecordsAppend(a: seq<string>, b: seq<string>)
    ensures Records(a + b) == Records(a) + Records(b)
    decreases |b|
  {
    if |b| == 0 {
      assert a + b == a;
    } else {
      assert (a + b)[..|a + b| - 1] == a + b[..|b| - 1];
      RecordsAppend(a, b[..|b| - 1]);
    }
  }

  /** At most one event per row. */
  lemma {:induction false} RecordsBound(rows: seq<string>)
    ensures |Records(rows)| <= |rows|
  {
    if |rows| > 0 {
      RecordsBound(rows[..|rows| - 1]);
    }
  }

  /** The events of the sheet: the first non-blank line is the header and is skipped. */
  function SheetEvents(lines: seq<string>): seq<Event> {
    if |lines| == 0 then [] else Records(lines[1..])
  }

  /** One more data row adds that row's events. */
  lemma RecordsSnoc(lines: seq<string>, i: nat)
    requires 1 <= i < |lines|
    ensures Records(lines[1..i + 1]) == Records(lines[1..i]) + RowEvents(lines[i])
  {
    assert lines[1..i + 1][..i - 1] == lines[1..i];
  }

  /** `parseCSV`: every non-blank line after the header that has at least six fields is an event. */
  method ParseCsv(text: string) returns (events: seq<Event>)
    ensures events == SheetEvents(SheetLines(text))
  {
    var lines := SheetLines(text);
    events := [];
    var i := 1;
    while i < |lines|
      invariant 1 <= i
      invariant |lines| > 0 ==> i <= |lines| && events == Records(lines[1..i])
      invariant |lines| == 0 ==> events == []
    {
      var row := ParseCsvLine(lines[i]);
      RecordsSnoc(lines, i);
      if |row| >= 6 {
        events := events + [EventOf(row)];
      }
      i := i + 1;
    }
    if |lines| > 0 {
      assert lines[1..i] == lines[1..];
    }
  }

  /**
   * The header line never yields an event, whatever it holds, and the sheet yields at most
   * one event per data line.
   */
  lemma SheetEventsSpec(header: string, body: seq<string>)
    ensures SheetEvents([header] + body) == Records(body)
    ensures |SheetEvents([header] + body)| <= |body|
  {
    assert ([header] + body)[1..] == body;
    RecordsBound(body);
  }

  /** Every event of the sheet comes from a data line, in order, with its fields. */
  lemma {:induction false} RecordsFromRows(rows: seq<string>, k: nat)
    requires k < |Records(rows)|
    ensures exists j :: 0 <= j < |rows| && RowEvents(rows[j]) == [Records(rows)[k]]
  {
    var init, last := rows[..|rows| - 1], rows[|rows| - 1];
    assert Records(rows) == Records(init) + RowEvents(last);
    if k < |Records(init)| {
      RecordsFromRows(init, k);
      var j :| 0 <= j < |init| && RowEvents(init[j]) == [Records(init)[k]];
      assert rows[j] == init[j];
    } else {
      assert |RowEvents(last)| <= 1;
      assert RowEvents(last) == [Records(rows)[k]];
    }
  }

  /** Every data line with at least six fields contributes its event. */
  lemma RowWithSixFieldsKept(rows: seq<string>, j: nat)
    requires j < |rows| && |CsvFields(rows[j])| >= 6
    ensures EventOf(CsvFields(rows[j])) in Records(rows)
  {
    assert rows == rows[..j] + [rows[j]] + rows[j + 1..];
    RecordsAppend(rows[..j] + [rows[j]], rows[j + 1..]);
    RecordsAppend(rows[..j], [rows[j]]);
    assert Records([rows[j]]) == [EventOf(CsvFields(rows[j]))] by {
      assert [rows[j]][..0] == [];
    }
  }

  // ---------------------------------------------------------------------------
  // Event types

  const TournamentClass := "type-tournament"
  const LeagueClass := "type-league"
  const JourneyClass := "type-journey"
  const OtherClass := "type-other"

  predicate IsTournament(t: string) { Contains(t, "torneo") || Contains(t, "tournament") }
  predicate IsLeague(t: string) { Contains(t, "liga") || Contains(t, "league") }
  predicate IsJourney(t: string) { Contains(t, "jornada") || Contains(t, "journey") }

  /** `getEventTypeClass`: keyword tests on the lower-cased type, tournament first. */
  function EventTypeClass(eventType: string): (cls: string)
    ensures cls in {TournamentClass, LeagueClass, JourneyClass, OtherClass}
  {
    if eventType == "" then OtherClass
    else
      var t := ToLower(eventType);
      if IsTournament(t) then TournamentClass
      else if IsLeague(t) then LeagueClass
      else if IsJourney(t) then JourneyClass
      else OtherClass
  }

  /**
   * The classification ignores letter case, and it follows a fixed precedence: a tournament
   * keyword wins over a league keyword, which wins over a journey keyword.
   */
  lemma EventTypeClassSpec(eventType: string)
    ensures EventTypeClass(ToUpper(eventType)) == EventTypeClass(eventType)
    ensures EventTypeClass(ToLower(eventType)) == EventTypeClass(eventType)
    ensures EventTypeClass(eventType) == TournamentClass <==> IsTournament(ToLower(eventType))
    ensures EventTypeClass(eventType) == LeagueClass <==>
      !IsTournament(ToLower(eventType)) && IsLeague(ToLower(eventType))
    ensures EventTypeClass(eventType) == JourneyClass <==>
      !IsTournament(ToLower(eventType)) && !IsLeague(ToLower(eventType)) && IsJourney(ToLower(eventType))
  {
    LowerForgetsCase(eventType);
    if eventType == "" {
      assert ToLower(eventType) == "";
      assert !Contains("", "torneo") && !Contains("", "tournament");
      assert !Contains("", "liga") && !Contains("", "league");
      assert !Contains("", "jornada") && !Contains("", "journey");
    }
  }

  /** A type naming both a tournament and a league is a tournament. */
  lemma TournamentBeforeLeague()
    ensures EventTypeClass("Liga y Torneo") == TournamentClass
  {
    var t := ToLower("Liga y Torneo");
    assert t == "liga y torneo";
    assert t[7..13] == "torneo";
    ContainsAt(t, "torneo");
    assert OccursAt(t, "torneo", 7);
  }

  /** `getEventColor`: one colour per class. */
  function EventColor(eventType: string): (color: string)
    ensures color in {"#4a90e2", "#e24a4a", "#f5a623", "#7ed321"}
  {
    var cls := EventTypeClass(eventType);
    if cls == TournamentClass then "#4a90e2"
    else if cls == LeagueClass then "#e24a4a"
    else if cls == JourneyClass then "#f5a623"
    else "#7ed321"
  }

  /** Two types get the same colour exactly when they get the same class. */
  lemma ColorIdentifiesClass(a: string, b: string)
    ensures EventColor(a) == EventColor(b) <==> EventTypeClass(a) == EventTypeClass(b)
  {
  }

  // ---------------------------------------------------------------------------
  // The month grid

  /** Cells in six rows of seven days. */
  const GridSize := 42

  /** One day cell: the number shown and whether it belongs to a neighbouring month. */
  datatype Cell = Cell(day: int, otherMonth: bool)

  /**
   * What `Date` hands `renderCalendar`: the weekday of the 1st (`getDay`, 0 = Sunday) and
   * the length of the month (`getDate` of its last day), neither of them negative.
   */
  predicate ValidMonth(startDay: int, daysInMonth: int) {
    0 <= startDay && 0 <= daysInMonth
  }

  /** The grid has 42 cells unless the padding and the month overflow them. */
  function GridLength(startDay: int, daysInMonth: int): int {
    Max(GridSize, startDay + daysInMonth)
  }

  /**
   * Cell `j` of the grid: the previous month's last `startDay` days, then the month's own
   * days from 1, then next month's days from 1.
   */
  function GridCell(startDay: int, daysInMonth: int, prevMonthLastDay: int, j: int): Cell {
    if j < startDay then Cell(prevMonthLastDay - startDay + 1 + j, true)
    else if j < startDay + daysInMonth then Cell(j - startDay + 1, false)
    else Cell(j - startDay - daysInMonth + 1, true)
  }

  /**
   * The cells `renderCalendar` appends, in order: one loop counting down to the previous
   * month's last day, one over the month's days, one padding the grid to 42 cells.
   */
  method MonthGrid(startDay: int, daysInMonth: int, prevMonthLastDay: int) returns (cells: seq<Cell>)
    requires ValidMonth(startDay, daysInMonth)
    ensures |cells| == GridLength(startDay, daysInMonth)
    ensures forall j :: 0 <= j < |cells| ==> cells[j] == GridCell(startDay, daysInMonth, prevMonthLastDay, j)
  {
    cells := [];
    var i := startDay - 1;
    while i >= 0
      invariant -1 <= i < startDay && |cells| == startDay - 1 - i
      invariant forall j :: 0 <= j < |cells| ==> cells[j] == GridCell(startDay, daysInMonth, prevMonthLastDay, j)
    {
      cells := cells + [Cell(prevMonthLastDay - i, true)];
      i := i - 1;
    }
    var d := 1;
    while d <= daysInMonth
      invariant 1 <= d <= daysInMonth + 1 && |cells| == startDay + d - 1
      invariant forall j :: 0 <= j < |cells| ==> cells[j] == GridCell(startDay, daysInMonth, prevMonthLastDay, j)
    {
      cells := cells + [Cell(d, false)];
      d := d + 1;
    }
    var totalCellsFilled := startDay + daysInMonth;
    var n := 1;
    while n <= GridSize - totalCellsFilled
      invariant 1 <= n <= Max(GridSize - totalCellsFilled, 0) + 1 && |cells| == totalCellsFilled + n - 1
      invariant forall j :: 0 <= j < |cells| ==> cells[j] == GridCell(startDay, daysInMonth, prevMonthLastDay, j)
    {
      cells := cells + [Cell(n, true)];
      n := n + 1;
    }
  }

  /**
   * A month that fits leaves exactly 42 cells; each day of the month has exactly one cell
   * of its own, cell `startDay + d - 1`, so in the week column of its weekday; the padding
   * before it ends with the previous month's last day, and every cell counts up by one from
   * its neighbour except where the month begins and where the next one does.
   */
  lemma GridLayout(startDay: int, daysInMonth: int, prevMonthLastDay: int)
    requires ValidMonth(startDay, daysInMonth)
    ensures startDay + daysInMonth <= GridSize ==> GridLength(startDay, daysInMonth) == GridSize
    ensures forall d :: 1 <= d <= daysInMonth ==>
      GridCell(startDay, daysInMonth, prevMonthLastDay, startDay + d - 1) == Cell(d, false)
    ensures forall j, k ::
      (0 <= j < k < GridLength(startDay, daysInMonth)
       && GridCell(startDay, daysInMonth, prevMonthLastDay, j) == GridCell(startDay, daysInMonth, prevMonthLastDay, k))
      ==> GridCell(startDay, daysInMonth, prevMonthLastDay, j).otherMonth
    ensures forall j :: 0 <= j < GridLength(startDay, daysInMonth) ==>
      (!GridCell(startDay, daysInMonth, prevMonthLastDay, j).otherMonth <==> startDay <= j < startDay + daysInMonth)
    ensures startDay > 0 ==> GridCell(startDay, daysInMonth, prevMonthLastDay, startDay - 1) == Cell(prevMonthLastDay, true)
    ensures forall j :: 0 < j < GridLength(startDay, daysInMonth) && j != startDay && j != startDay + daysInMonth ==>
      GridCell(startDay, daysInMonth, prevMonthLastDay, j).day == GridCell(startDay, daysInMonth, prevMonthLastDay, j - 1).day + 1
  {
  }

  // ---------------------------------------------------------------------------
  // Event dates

  /** What `parseDate` hands to `new Date(…)`: three `d/m/y` parts, or the text itself. */
  datatype DateSource = DayMonthYear(day: string, month: string, year: string) | Native(text: string)

  /** The `/` split of `parseDate`. */
  function DateParts(dateStr: string): (d: DateSource)
    ensures d.DayMonthYear? ==> '/' !in d.day && '/' !in d.month && '/' !in d.year
    ensures d.DayMonthYear? ==> dateStr == d.day + "/" + d.month + "/" + d.year
  {
    if '/' in dateStr then
      var parts := Split(dateStr, '/');
      if |parts| == 3 then
        SplitPiecesFree(dateStr, '/');
        JoinSplit(dateStr, '/');
        assert parts == [parts[0], parts[1], parts[2]];
        JoinThree(parts[0], parts[1], parts[2]);
        DayMonthYear(parts[0], parts[1], parts[2])
      else Native(dateStr)
    else Native(dateStr)
  }

  /** Three pieces joined with `/`. */
  lemma JoinThree(d: string, m: string, y: string)
    ensures Join([d, m, y], '/') == d + "/" + m + "/" + y
  {
    assert [d, m, y][1..] == [m, y];
    assert [m, y][1..] == [y];
    assert Join([m, y], '/') == m + "/" + y;
    assert Join([d, m, y], '/') == d + "/" + (m + "/" + y);
  }

  /** A `d/m/y` text gives back its three parts. */
  lemma DatePartsOfJoin(d: string, m: string, y: string)
    requires '/' !in d && '/' !in m && '/' !in y
    ensures DateParts(d + "/" + m + "/" + y) == DayMonthYear(d, m, y)
  {
    var s := d + "/" + m + "/" + y;
    JoinThree(d, m, y);
    SplitJoin([d, m, y], '/');
    assert s[|d|] == '/';
  }

  /** Only a text with exactly two slashes splits, and it is the join of its parts. */
  lemma DatePartsExact(dateStr: string)
    ensures DateParts(dateStr).DayMonthYear? <==> CountChar(dateStr, '/') == 2
    ensures CountChar(dateStr, '/') != 2 ==> DateParts(dateStr) == Native(dateStr)
  {
    SplitCount(dateStr, '/');
    if CountChar(dateStr, '/') == 2 && '/' !in dateStr {
      CountCharAbsent(dateStr, '/');
    }
  }
}
