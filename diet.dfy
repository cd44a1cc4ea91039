/**
 * The diet log scan of the diet document API: the body of a document is a
 * sequence of structural items; the text runs of its paragraphs are read in
 * order, each one stripped, and two line shapes are recognised. A date header
 * (`DD/DD/DD` at the start) becomes the current date and opens an empty log
 * for it; a time entry (`H:MM - ` or `HH:MM - ` at the start) is filed under
 * the current date, keyed by the text before the first " - ".
 */
module DietDoc {
  import opened Wrappers
  import opened Strings

  /** An element of a paragraph: a run of text, or anything else (an inline
      object, a page break, ...). */
  datatype ParagraphElement = TextRun(content: string) | OtherElement

  /** An item of the document body: a paragraph (a missing `elements` list is
      the empty one), or anything else (a table, a section break, ...). */
  datatype StructuralElement = Paragraph(elements: seq<ParagraphElement>) | OtherItem

  /** date header -> (time -> description) */
  type DietLog = map<string, map<string, string>>

  const Separator := " - "

  /** `re.match(r'\d{2}/\d{2}/\d{2}', text)`: only the first eight characters
      are looked at. */
  predicate IsDateHeader(text: string) {
    |text| >= 8
    && IsDigit(text[0]) && IsDigit(text[1]) && text[2] == '/'
    && IsDigit(text[3]) && IsDigit(text[4]) && text[5] == '/'
    && IsDigit(text[6]) && IsDigit(text[7])
  }

  /** `text` starts with `hourDigits` digits, a colon, two digits and " - ". */
  predicate TimeEntryAt(text: string, hourDigits: nat) {
    hourDigits + 6 <= |text|
    && (forall i :: 0 <= i < hourDigits ==> IsDigit(text[i]))
    && text[hourDigits] == ':' && IsDigit(text[hourDigits + 1]) && IsDigit(text[hourDigits + 2])
    && text[hourDigits + 3..hourDigits + 6] == Separator
  }

  /** `re.match(r'\d{1,2}:\d{2} - ', text)`. */
  predicate IsTimeEntry(text: string) {
    TimeEntryAt(text, 1) || TimeEntryAt(text, 2)
  }

  /** On a time entry, the first " - " is the one right after the clock. */
  lemma TimeEntrySplits(text: string)
    requires IsTimeEntry(text)
    ensures var n := if TimeEntryAt(text, 1) then 4 else 5;
            SplitOnce(text, Separator) == Some((text[..n], text[n + 3..]))
  {
    var n := if TimeEntryAt(text, 1) then 4 else 5;
    assert OccursAt(text, Separator, n);
    forall k | 0 <= k < n ensures !OccursAt(text, Separator, k) {
      assert text[k] != ' ';
    }
    assert text[..n] + Separator + text[n + 3..] == text;
    var r := SplitOnce(text, Separator);
    assert r.Some?;
    assert |r.value.0| == n;
    assert r.value.0 == text[..n];
  }

  /** `time, details = text.split(' - ', 1)` on a time entry: the time is the
      clock at the start of the line (four or five characters) and the details
      are everything after the first " - ", later " - " included. */
  function SplitEntry(text: string): (r: (string, string))
    requires IsTimeEntry(text)
    ensures r.0 + Separator + r.1 == text
    ensures |r.0| == 4 || |r.0| == 5
    ensures r.0 == text[..|r.0|] && r.1 == text[|r.0| + 3..]
    ensures forall i :: 0 <= i < |r.0| ==> IsDigit(r.0[i]) || r.0[i] == ':'
  {
    TimeEntrySplits(text);
    SplitOnce(text, Separator).value
  }

  /** Python truthiness of `current_date` (None and "" are false). */
  predicate Truthy(current: Option<string>) {
    current.Some? && current.value != ""
  }

  /** The scan's state: `current_date` and `diet_dict`. */
  datatype ScanState = ScanState(current: Option<string>, log: DietLog)

  /** The current date, once set, is a date header with a log of its own. */
  predicate Consistent(st: ScanState) {
    st.current.Some? ==> IsDateHeader(st.current.value) && st.current.value in st.log
  }

  const Start := ScanState(None, map[])

  /** What the scan does with one stripped text run. */
  function Step(st: ScanState, text: string): (r: ScanState)
    requires Consistent(st)
    ensures Consistent(r)
  {
    if IsDateHeader(text) then
      ScanState(Some(text), st.log[text := map[]])
    else if IsTimeEntry(text) then
      var (time, details) := SplitEntry(text);
      if Truthy(st.current) then
        var date := st.current.value;
        ScanState(st.current, st.log[date := st.log[date][time := details]])
      else st
    else st
  }

  /** The state after scanning the stripped texts `texts` in order. */
  function Scan(texts: seq<string>): (r: ScanState)
    ensures Consistent(r)
  {
    if texts == [] then Start
    else Step(Scan(texts[..|texts| - 1]), texts[|texts| - 1])
  }

  lemma ScanSnoc(texts: seq<string>, text: string)
    ensures Scan(texts + [text]) == Step(Scan(texts), text)
  {
    assert (texts + [text])[..|texts|] == texts;
  }

  /** Every text run, stripped. */
  function StripAll(lines: seq<string>): (r: seq<string>)
    ensures |r| == |lines|
  {
    if lines == [] then [] else StripAll(lines[..|lines| - 1]) + [Strip(lines[|lines| - 1])]
  }

  lemma StripAllSnoc(lines: seq<string>, raw: string)
    ensures StripAll(lines + [raw]) == StripAll(lines) + [Strip(raw)]
  {
    assert (lines + [raw])[..|lines|] == lines;
  }

  /** The text runs of a paragraph's elements, in order. */
  function ElementTexts(elements: seq<ParagraphElement>): seq<string> {
    if elements == [] then []
    else
      var last := elements[|elements| - 1];
      ElementTexts(elements[..|elements| - 1]) + (if last.TextRun? then [last.content] else [])
  }

  function ItemTexts(item: StructuralElement): seq<string> {
    if item.Paragraph? then ElementTexts(item.elements) else []
  }

  /** The text runs of the whole document body, in document order. */
  function DocumentTexts(content: seq<StructuralElement>): seq<string> {
    if content == [] then []
    else DocumentTexts(content[..|content| - 1]) + ItemTexts(content[|content| - 1])
  }

  lemma AppendAssoc<T>(a: seq<T>, b: seq<T>, c: seq<T>)
    ensures (a + b) + c == a + (b + c)
  {
  }

  lemma AppendEmpty<T>(a: seq<T>)
    ensures a + [] == a
  {
  }

  lemma ElementTextsSnoc(elements: seq<ParagraphElement>, j: nat)
    requires j < |elements|
    ensures ElementTexts(elements[..j + 1])
            == ElementTexts(elements[..j]) + (if elements[j].TextRun? then [elements[j].content] else [])
  {
    assert elements[..j + 1][..j] == elements[..j];
  }

  lemma DocumentTextsSnoc(content: seq<StructuralElement>, i: nat)
    requires i < |content|
    ensures DocumentTexts(content[..i + 1]) == DocumentTexts(content[..i]) + ItemTexts(content[i])
  {
    assert content[..i + 1][..i] == content[..i];
  }

  lemma {:induction false} ElementTextsAppend(a: seq<ParagraphElement>, b: seq<ParagraphElement>)
    ensures ElementTexts(a + b) == ElementTexts(a) + ElementTexts(b)
    decreases |b|
  {
    if b == [] {
      assert a + b == a;
    } else {
      var b' := b[..|b| - 1];
      assert (a + b)[..|a + b| - 1] == a + b';
      var x := b[|b| - 1];
      assert (a + b)[|a + b| - 1] == x;
      ElementTextsAppend(a, b');
      AppendAssoc(ElementTexts(a), ElementTexts(b'), if x.TextRun? then [x.content] else []);
    }
  }

  lemma {:induction false} DocumentTextsAppend(a: seq<StructuralElement>, b: seq<StructuralElement>)
    ensures DocumentTexts(a + b) == DocumentTexts(a) + DocumentTexts(b)
    decreases |b|
  {
    if b == [] {
      assert a + b == a;
    } else {
      var b' := b[..|b| - 1];
      assert (a + b)[..|a + b| - 1] == a + b';
      var x := b[|b| - 1];
      assert (a + b)[|a + b| - 1] == x;
      DocumentTextsAppend(a, b');
      AppendAssoc(DocumentTexts(a), DocumentTexts(b'), ItemTexts(x));
    }
  }

  /** The scan of a whole document. */
  function ScanDocument(content: seq<StructuralElement>): ScanState {
    Scan(StripAll(DocumentTexts(content)))
  }

  /** The body of the inner loop for one text run: strip it, then open a
      date or file a time entry. `seen` holds the stripped texts before it. */
  method ScanTextRun(currentDate: Option<string>, dietDict: DietLog, raw: string, ghost seen: seq<string>)
    returns (date': Option<string>, dict': DietLog)
    requires currentDate == Scan(seen).current && dietDict == Scan(seen).log
    ensures date' == Scan(seen + [Strip(raw)]).current && dict' == Scan(seen + [Strip(raw)]).log
  {
    ScanSnoc(seen, Strip(raw));
    date', dict' := currentDate, dietDict;
    var text := Strip(raw);
    if IsDateHeader(text) {
      date' := Some(text);
      dict' := dict'[text := map[]];
    } else if IsTimeEntry(text) {
      TimeEntrySplits(text);
      var (time, details) := SplitOnce(text, Separator).value;
      if Truthy(date') {
        dict' := dict'[date'.value := dict'[date'.value][time := details]];
      }
    }
  }

  /** One more element of a paragraph adds its text run, if it has one, to the texts read. */
  lemma ParagraphStep(lines: seq<string>, elements: seq<ParagraphElement>, j: nat)
    requires j < |elements|
    ensures lines + ElementTexts(elements[..j + 1])
            == if elements[j].TextRun? then (lines + ElementTexts(elements[..j])) + [elements[j].content]
               else lines + ElementTexts(elements[..j])
  {
    ElementTextsSnoc(elements, j);
    if elements[j].TextRun? {
      AppendAssoc(lines, ElementTexts(elements[..j]), [elements[j].content]);
    } else {
      AppendEmpty(ElementTexts(elements[..j]));
    }
  }

  /** The inner loop over one paragraph's elements. `lines` holds the text
      runs read before the paragraph. */
  method ScanParagraph(currentDate: Option<string>, dietDict: DietLog,
                       elements: seq<ParagraphElement>, ghost lines: seq<string>)
    returns (date': Option<string>, dict': DietLog)
    requires currentDate == Scan(StripAll(lines)).current && dietDict == Scan(StripAll(lines)).log
    ensures var after := StripAll(lines + ElementTexts(elements));
            date' == Scan(after).current && dict' == Scan(after).log
  {
    date', dict' := currentDate, dietDict;
    AppendEmpty(lines);
    for j := 0 to |elements|
      invariant date' == Scan(StripAll(lines + ElementTexts(elements[..j]))).current
      invariant dict' == Scan(StripAll(lines + ElementTexts(elements[..j]))).log
    {
      ghost var read := lines + ElementTexts(elements[..j]);   // the text runs read so far
      ParagraphStep(lines, elements, j);
      if elements[j].TextRun? {
        var raw := elements[j].content;
        StripAllSnoc(read, raw);
        date', dict' := ScanTextRun(date', dict', raw, StripAll(read));
      }
    }
    assert elements[..|elements|] == elements;
  }

  /** `get_recent_diet_data` after the fetch: the loop over the body's items,
      carrying `current_date` and `diet_dict` from one paragraph to the next. */
  method GetRecentDietData(content: seq<StructuralElement>) returns (dietDict: DietLog)
    ensures dietDict == ScanDocument(content).log
  {
    dietDict := map[];
    var currentDate: Option<string> := None;
    ghost var read: seq<string> := [];   // the text runs read so far
    for i := 0 to |content|
      invariant read == DocumentTexts(content[..i])
      invariant currentDate == Scan(StripAll(read)).current && dietDict == Scan(StripAll(read)).log
    {
      DocumentTextsSnoc(content, i);
      var item := content[i];
      if item.Paragraph? {
        currentDate, dietDict := ScanParagraph(currentDate, dietDict, item.elements, read);
        read := read + ElementTexts(item.elements);
      } else {
        AppendEmpty(read);
      }
    }
    assert content[..|content|] == content;
  }

  /// A reference description of the scan's result, by sections: the lines
  /// before the first date header are ignored; every other line belongs to the
  /// section of the closest date header above it; each header's key holds the
  /// time entries of its own section, later entries winning; and a header that
  /// occurs again replaces what its earlier section recorded.

  /** The text at `k` is the date header `d`. */
  predicate HeaderAt(texts: seq<string>, k: int, d: string) {
    0 <= k < |texts| && IsDateHeader(texts[k]) && texts[k] == d
  }

  /** The text at `k` is a time entry for time `t`. */
  predicate EntryAt(texts: seq<string>, k: int, t: string) {
    0 <= k < |texts| && IsTimeEntry(texts[k]) && SplitEntry(texts[k]).0 == t
  }

  /** The position of the last date header in `texts`, or -1 if there is none. */
  function LastHeader(texts: seq<string>): (h: int)
    ensures -1 <= h < |texts|
    ensures h >= 0 ==> IsDateHeader(texts[h])
    ensures forall k :: h < k < |texts| ==> !IsDateHeader(texts[k])
  {
    if texts == [] then -1
    else if IsDateHeader(texts[|texts| - 1]) then |texts| - 1
    else LastHeader(texts[..|texts| - 1])
  }

  /** The time entries among `texts`: time -> details, later texts winning. */
  function TimeEntries(texts: seq<string>): map<string, string> {
    if texts == [] then map[]
    else
      var prev := TimeEntries(texts[..|texts| - 1]);
      var text := texts[|texts| - 1];
      if IsTimeEntry(text) then prev[SplitEntry(text).0 := SplitEntry(text).1] else prev
  }

  /** The log described section by section, last section first. */
  function Sections(texts: seq<string>): DietLog
    decreases |texts|
  {
    var h := LastHeader(texts);
    if h < 0 then map[]
    else Sections(texts[..h])[texts[h] := TimeEntries(texts[h + 1..])]
  }

  /** A line that is not a date header keeps the current date, and files a
      time entry under it when there is one. */
  lemma StepOnOtherLine(st: ScanState, text: string)
    requires Consistent(st) && !IsDateHeader(text)
    ensures Step(st, text).current == st.current
    ensures Step(st, text).log
            == if IsTimeEntry(text) && Truthy(st.current)
               then st.log[st.current.value := st.log[st.current.value][SplitEntry(text).0 := SplitEntry(text).1]]
               else st.log
  {
  }

  lemma TimeEntriesSnoc(body: seq<string>, text: string)
    ensures TimeEntries(body + [text])
            == if IsTimeEntry(text) then TimeEntries(body)[SplitEntry(text).0 := SplitEntry(text).1]
               else TimeEntries(body)
  {
    assert (body + [text])[..|body|] == body;
  }

  lemma LastHeaderOnOtherLine(prefix: seq<string>, last: string)
    requires !IsDateHeader(last)
    ensures LastHeader(prefix + [last]) == LastHeader(prefix)
  {
    assert (prefix + [last])[..|prefix|] == prefix;
  }

  /** `Sections` at its last header. */
  lemma SectionsAtLastHeader(texts: seq<string>, h: int)
    requires h == LastHeader(texts) && h >= 0
    ensures Sections(texts) == Sections(texts[..h])[texts[h] := TimeEntries(texts[h + 1..])]
  {
  }

  lemma UpdateOverrides<K, V>(m: map<K, V>, k: K, a: V, b: V)
    ensures m[k := a][k := b] == m[k := b]
  {
  }

  /** Appending an element leaves the slices around an earlier position as they were. */
  lemma SnocSlices<T>(p: seq<T>, x: T, h: int)
    requires 0 <= h < |p|
    ensures (p + [x])[..h] == p[..h] && (p + [x])[h] == p[h]
    ensures (p + [x])[h + 1..] == p[h + 1..] + [x]
  {
    var a, b := (p + [x])[h + 1..], p[h + 1..] + [x];
    assert a == b by {
      forall k | 0 <= k < |a| ensures a[k] == b[k] { }
    }
  }

  /** After a line that is not a header, the last section runs on to it. */
  lemma SectionsRunOn(prefix: seq<string>, last: string, h: int)
    requires !IsDateHeader(last) && h == LastHeader(prefix) && h >= 0
    ensures Sections(prefix + [last]) == Sections(prefix[..h])[prefix[h] := TimeEntries(prefix[h + 1..] + [last])]
  {
    SnocSlices(prefix, last, h);
    LastHeaderOnOtherLine(prefix, last);
    SectionsAtLastHeader(prefix + [last], h);
  }

  /** Appending a line that is not a header extends the last section. */
  lemma SectionsOnOtherLine(prefix: seq<string>, last: string, h: int)
    requires !IsDateHeader(last) && h == LastHeader(prefix) && h >= 0
    ensures Sections(prefix + [last]) == Sections(prefix)[prefix[h] := TimeEntries(prefix[h + 1..] + [last])]
  {
    var earlier := Sections(prefix[..h]);
    SectionsAtLastHeader(prefix, h);
    SectionsRunOn(prefix, last, h);
    UpdateOverrides(earlier, prefix[h], TimeEntries(prefix[h + 1..]), TimeEntries(prefix[h + 1..] + [last]));
  }

  /** The scan computes the sectioned log, and its current date is the last
      date header seen. */
  lemma {:induction false} ScanMatchesSections(texts: seq<string>)
    ensures Scan(texts).log == Sections(texts)
    ensures Scan(texts).current
            == if LastHeader(texts) < 0 then None else Some(texts[LastHeader(texts)])
  {
    if texts != [] {
      var n := |texts|;
      var prefix := texts[..n - 1];
      var last := texts[n - 1];
      assert texts == prefix + [last];
      ScanMatchesSections(prefix);
      var st := Scan(prefix);
      assert Scan(texts) == Step(st, last);
      if IsDateHeader(last) {
        assert LastHeader(texts) == n - 1;
        assert texts[n..] == [];
      } else {
        StepOnOtherLine(st, last);
        LastHeaderOnOtherLine(prefix, last);
        var h := LastHeader(prefix);
        if h >= 0 {
          SectionsOnOtherLine(prefix, last, h);
          SectionsAtLastHeader(prefix, h);
          TimeEntriesSnoc(prefix[h + 1..], last);
          assert Truthy(st.current);
        }
      }
    }
  }

  /** The keys of the log are exactly the date headers of the document. */
  lemma {:induction false} SectionKeys(texts: seq<string>, d: string)
    ensures d in Sections(texts) <==> exists k :: HeaderAt(texts, k, d)
    decreases |texts|
  {
    var h := LastHeader(texts);
    if h < 0 {
      assert forall k :: !HeaderAt(texts, k, d);
    } else {
      var prefix := texts[..h];
      SectionKeys(prefix, d);
      if d == texts[h] {
        assert HeaderAt(texts, h, d);
      } else if d in Sections(prefix) {
        var k :| HeaderAt(prefix, k, d);
        assert HeaderAt(texts, k, d);
      } else {
        forall k | 0 <= k < |texts| ensures !HeaderAt(texts, k, d) {
          if k < h {
            assert texts[k] == prefix[k];
            assert !HeaderAt(prefix, k, d);
          }
        }
      }
    }
  }

  /** A time is among a section's entries exactly when some time entry of the
      section has it. */
  lemma {:induction false} EntryKeys(texts: seq<string>, t: string)
    ensures t in TimeEntries(texts) <==> exists k :: EntryAt(texts, k, t)
  {
    if texts == [] {
      assert forall k :: !EntryAt(texts, k, t);
    } else {
      var n := |texts|;
      var prefix := texts[..n - 1];
      EntryKeys(prefix, t);
      if EntryAt(texts, n - 1, t) {
      } else if t in TimeEntries(prefix) {
        var k :| EntryAt(prefix, k, t);
        assert EntryAt(texts, k, t);
      } else {
        forall k | 0 <= k < n ensures !EntryAt(texts, k, t) {
          if k < n - 1 {
            assert texts[k] == prefix[k];
            assert !EntryAt(prefix, k, t);
          }
        }
      }
    }
  }

  /** Last write wins: the details recorded for a time are those of the last
      time entry with that time. */
  lemma {:induction false} LastEntryWins(texts: seq<string>, k: int, t: string)
    requires EntryAt(texts, k, t)
    requires forall j :: k < j < |texts| ==> !EntryAt(texts, j, t)
    ensures t in TimeEntries(texts)
    ensures TimeEntries(texts)[t] == SplitEntry(texts[k]).1
  {
    var n := |texts|;
    var prefix := texts[..n - 1];
    if k < n - 1 {
      assert EntryAt(prefix, k, t);
      forall j | k < j < |prefix| ensures !EntryAt(prefix, j, t) {
        assert !EntryAt(texts, j, t);
      }
      LastEntryWins(prefix, k, t);
      assert !EntryAt(texts, n - 1, t);
    }
  }

  /** Time entries before the first date header are dropped: removing such a
      preamble changes nothing. */
  lemma {:induction false} PreambleIgnored(pre: seq<string>, rest: seq<string>)
    requires forall k :: 0 <= k < |pre| ==> !IsDateHeader(pre[k])
    ensures Sections(pre + rest) == Sections(rest)
    decreases |rest|
  {
    LastHeaderAppend(pre, rest);
    var h := LastHeader(rest);
    if h >= 0 {
      var texts := pre + rest;
      calc {
        Sections(texts);
      == { SectionsAtLastHeader(texts, |pre| + h); }
        Sections(texts[..|pre| + h])[texts[|pre| + h] := TimeEntries(texts[|pre| + h + 1..])];
      == { AppendSlices(pre, rest, h); }
        Sections(pre + rest[..h])[rest[h] := TimeEntries(rest[h + 1..])];
      == { PreambleIgnored(pre, rest[..h]); }
        Sections(rest[..h])[rest[h] := TimeEntries(rest[h + 1..])];
      == { SectionsAtLastHeader(rest, h); }
        Sections(rest);
      }
    }
  }

  /** The slices of `p + r` around a position inside `r`. */
  lemma AppendSlices<T>(p: seq<T>, r: seq<T>, h: int)
    requires 0 <= h < |r|
    ensures (p + r)[..|p| + h] == p + r[..h] && (p + r)[|p| + h] == r[h]
    ensures (p + r)[|p| + h + 1..] == r[h + 1..]
  {
    var a, b := (p + r)[..|p| + h], p + r[..h];
    assert a == b by {
      forall k | 0 <= k < |a| ensures a[k] == b[k] { }
    }
    var c, d := (p + r)[|p| + h + 1..], r[h + 1..];
    assert c == d by {
      forall k | 0 <= k < |c| ensures c[k] == d[k] { }
    }
  }

  lemma {:induction false} LastHeaderAppend(pre: seq<string>, rest: seq<string>)
    requires forall k :: 0 <= k < |pre| ==> !IsDateHeader(pre[k])
    ensures LastHeader(pre + rest) == if LastHeader(rest) < 0 then -1 else |pre| + LastHeader(rest)
    decreases |rest|
  {
    var texts := pre + rest;
    if rest == [] {
      assert texts == pre;
    } else {
      assert texts[..|texts| - 1] == pre + rest[..|rest| - 1];
      assert texts[|texts| - 1] == rest[|rest| - 1];
      LastHeaderAppend(pre, rest[..|rest| - 1]);
    }
  }

  lemma {:induction false} LastHeaderBeforeTail(pre: seq<string>, d: string, post: seq<string>)
    requires IsDateHeader(d)
    requires forall k :: 0 <= k < |post| ==> !IsDateHeader(post[k])
    ensures LastHeader(pre + [d] + post) == |pre|
    decreases |post|
  {
    var texts := pre + [d] + post;
    if post == [] {
      assert texts[|texts| - 1] == d;
    } else {
      assert texts[..|texts| - 1] == pre + [d] + post[..|post| - 1];
      assert texts[|texts| - 1] == post[|post| - 1];
      LastHeaderBeforeTail(pre, d, post[..|post| - 1]);
    }
  }

  /** Each time entry is filed under the closest date header above it, and a
      header that occurs again starts its log afresh: after a header `d` and
      lines with no further header, `d` becomes the current date, `d`'s log is
      exactly the time entries of those lines, whatever an earlier `d` had
      recorded, and every other date keeps what it had. */
  lemma LatestHeaderOwnsItsSection(pre: seq<string>, d: string, post: seq<string>)
    requires IsDateHeader(d)
    requires forall k :: 0 <= k < |post| ==> !IsDateHeader(post[k])
    ensures Scan(pre + [d] + post).current == Some(d)
    ensures Scan(pre + [d] + post).log == Scan(pre).log[d := TimeEntries(post)]
  {
    var texts := pre + [d] + post;
    LastHeaderBeforeTail(pre, d, post);
    ScanMatchesSections(texts);
    ScanMatchesSections(pre);
    assert texts[..|pre|] == pre;
    assert texts[|pre| + 1..] == post;
  }

  /** A text that is neither a date header nor a time entry leaves the state
      untouched, wherever it stands. */
  lemma {:induction false} UnrecognisedTextIgnored(pre: seq<string>, text: string, post: seq<string>)
    requires !IsDateHeader(text) && !IsTimeEntry(text)
    ensures Scan(pre + [text] + post) == Scan(pre + post)
    decreases |post|
  {
    if post == [] {
      assert pre + [text] + post == pre + [text];
      assert pre + post == pre;
      ScanSnoc(pre, text);
    } else {
      var post' := post[..|post| - 1];
      var x := post[|post| - 1];
      assert pre + [text] + post == (pre + [text] + post') + [x];
      assert pre + post == (pre + post') + [x];
      ScanSnoc(pre + [text] + post', x);
      ScanSnoc(pre + post', x);
      UnrecognisedTextIgnored(pre, text, post');
    }
  }

  /** An item that is not a paragraph contributes no text run. */
  lemma OtherItemHasNoText(pre: seq<StructuralElement>, post: seq<StructuralElement>)
    ensures DocumentTexts(pre + [OtherItem] + post) == DocumentTexts(pre + post)
  {
    assert DocumentTexts([OtherItem]) == [] by {
      assert [OtherItem][..0] == [];
    }
    DocumentTextsAppend(pre + [OtherItem], post);
    DocumentTextsAppend(pre, [OtherItem]);
    DocumentTextsAppend(pre, post);
  }

  /** An element that is not a text run contributes no text run. */
  lemma OtherElementHasNoText(es: seq<ParagraphElement>, fs: seq<ParagraphElement>)
    ensures ElementTexts(es + [OtherElement] + fs) == ElementTexts(es + fs)
  {
    assert ElementTexts([OtherElement]) == [] by {
      assert [OtherElement][..0] == [];
    }
    ElementTextsAppend(es + [OtherElement], fs);
    ElementTextsAppend(es, [OtherElement]);
    ElementTextsAppend(es, fs);
  }

  /** Items that are not paragraphs, and elements that are not text runs, do
      not take part in the scan. */
  lemma NonTextIgnored(pre: seq<StructuralElement>, post: seq<StructuralElement>,
                       es: seq<ParagraphElement>, fs: seq<ParagraphElement>)
    ensures ScanDocument(pre + [OtherItem] + post) == ScanDocument(pre + post)
    ensures ScanDocument(pre + [Paragraph(es + [OtherElement] + fs)] + post)
            == ScanDocument(pre + [Paragraph(es + fs)] + post)
  {
    OtherItemHasNoText(pre, post);
    OtherElementHasNoText(es, fs);
    var p1 := Paragraph(es + [OtherElement] + fs);
    var p2 := Paragraph(es + fs);
    DocumentTextsAppend(pre + [p1], post);
    DocumentTextsAppend(pre, [p1]);
    DocumentTextsAppend(pre + [p2], post);
    DocumentTextsAppend(pre, [p2]);
    assert [p1][..0] == [] && [p2][..0] == [];
    assert DocumentTexts([p1]) == DocumentTexts([p2]);
  }

  /** `lambda_handler`: 200 with the log when the document could be fetched,
      500 with the error text otherwise. */
  method LambdaHandler(fetched: Result<seq<StructuralElement>, string>)
    returns (statusCode: int, body: Result<DietLog, string>)
    ensures statusCode == 200 <==> fetched.Success?
    ensures statusCode == 200 || statusCode == 500
    ensures fetched.Success? ==> body == Success(ScanDocument(fetched.value).log)
    ensures fetched.Failure? ==> body == Failure(fetched.error)
  {
    match fetched
    case Failure(e) =>
      statusCode, body := 500, Failure(e);
    case Success(content) =>
      var log := GetRecentDietData(content);
      statusCode, body := 200, Success(log);
  }
}
