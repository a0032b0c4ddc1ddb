/**
 * The text export of the tab-export plugin: `createHeader` writes the quoted
 * column labels, `populateFileData` writes one line per record of a foundset,
 * its cells separated by `sep`, text cells quoted with inner quotes doubled
 * (the style of section 2 of RFC 4180), dates quoted, and values a value list
 * knows replaced by their display values.
 */
module CsvExport {
  import opened Base
  import opened Strings

  /** A cell's raw value: null, a String, a Date (its time), a Number, or any other object. */
  datatype CellValue = Null | Text(s: Str) | Date(time: int) | Number(n: real) | Other(id: nat)

  /**
   * `SimpleDateFormat(pattern).format`, `DecimalFormat(pattern).format` (None
   * when the pattern makes them throw) and `String.valueOf`.
   */
  datatype Formatters = Formatters(
    formatDate: (Str, int) -> Option<Str>,
    formatNumber: (Str, real) -> Option<Str>,
    toString: CellValue -> Str)

  /** A runtime value list: its real values, each paired with the element shown for it. */
  datatype ValueList = ValueList(entries: seq<(CellValue, CellValue)>)

  /** A record of the foundset: `getValue` of a data provider. */
  type Record = Str -> CellValue

  const Quote: Str := "\""

  // ---------------------------------------------------------------- header

  function Quoted(s: Str): Str {
    Quote + s + Quote
  }

  function QuoteAll(labels: seq<Str>): (q: seq<Str>)
    ensures |q| == |labels|
    ensures forall k :: 0 <= k < |labels| ==> q[k] == Quoted(labels[k])
  {
    seq(|labels|, k requires 0 <= k < |labels| => Quoted(labels[k]))
  }

  /** The header line: every label in quotes, `sep` between them, then a newline. */
  function HeaderLine(labels: seq<Str>, sep: Str): Str {
    Join(QuoteAll(labels), sep) + "\n"
  }

  /** After `k` of `n` pieces have been appended, with the separator that follows a piece that is not the last. */
  function Partial(pieces: seq<Str>, k: nat, sep: Str): Str
    requires k <= |pieces|
  {
    Join(pieces[..k], sep) + (if 0 < k < |pieces| then sep else "")
  }

  /** One more piece and, unless it was the last, one more separator. */
  lemma PartialStep(pieces: seq<Str>, k: nat, sep: Str)
    requires k < |pieces|
    ensures Partial(pieces, k, sep) + pieces[k] + (if k < |pieces| - 1 then sep else "") == Partial(pieces, k + 1, sep)
  {
    if k == 0 {
      assert pieces[..1] == [pieces[0]];
    } else {
      assert pieces[..k + 1] == pieces[..k] + [pieces[k]];
      JoinSnoc(pieces[..k], pieces[k], sep);
    }
  }

  /** `createHeader`. */
  method CreateHeader(labels: seq<Str>, sep: Str) returns (header: Str)
    ensures header == HeaderLine(labels, sep)
  {
    ghost var pieces := QuoteAll(labels);
    header := "";
    for k := 0 to |labels|
      invariant header == Partial(pieces, k, sep)
    {
      PartialStep(pieces, k, sep);
      header := header + Quote;
      header := header + labels[k];
      header := header + Quote;
      if k < |labels| - 1 {
        header := header + sep;
      }
    }
    assert pieces[..|labels|] == pieces;
    header := header + "\n";
  }

  /**
   * No labels give a bare newline; otherwise the line opens with a quote and
   * closes with a quote and the newline.
   */
  lemma HeaderShape(labels: seq<Str>, sep: Str)
    ensures labels == [] ==> HeaderLine(labels, sep) == "\n"
    ensures labels != [] ==> StartsWith(HeaderLine(labels, sep), Quote + labels[0])
    ensures labels != [] ==> EndsWith(HeaderLine(labels, sep), labels[|labels| - 1] + Quote + "\n")
  {
    if labels != [] {
      var q := QuoteAll(labels);
      JoinEnds(q, sep);
      var h := HeaderLine(labels, sep);
      var first := Quote + labels[0];
      var last := labels[|labels| - 1] + Quote + "\n";
      assert StartsWith(Join(q, sep), q[0]);
      assert h[..|first|] == Join(q, sep)[..|first|] == q[0][..|first|];
      assert EndsWith(Join(q, sep), q[|q| - 1]);
      assert h[|h| - |last|..] == last;
    }
  }

  /** A join starts with its first piece and ends with its last. */
  lemma {:induction false} JoinEnds(ss: seq<Str>, sep: Str)
    requires |ss| > 0
    ensures StartsWith(Join(ss, sep), ss[0])
    ensures EndsWith(Join(ss, sep), ss[|ss| - 1])
    decreases |ss|
  {
    if |ss| > 1 {
      JoinEnds(ss[1..], sep);
      var j := Join(ss, sep);
      var rest := Join(ss[1..], sep);
      assert j == ss[0] + sep + rest;
      assert j[..|ss[0]|] == ss[0];
      assert j[|j| - |rest|..] == rest;
      assert ss[1..][|ss[1..]| - 1] == ss[|ss| - 1];
      assert j[|j| - |ss[|ss| - 1]|..] == rest[|rest| - |ss[|ss| - 1]|..];
    }
  }

  /**
   * With a one-character separator that no label contains, splitting the
   * header (without its newline) on it gives back the quoted labels: one
   * separator between neighbours, none elsewhere.
   */
  lemma HeaderFields(labels: seq<Str>, c: char)
    requires |labels| > 1
    requires forall k :: 0 <= k < |labels| ==> c != '"' && c !in labels[k]
    ensures var h := HeaderLine(labels, [c]);
            Split(h[..|h| - 1], c) == QuoteAll(labels)
  {
    var q := QuoteAll(labels);
    forall k | 0 <= k < |q|
      ensures c !in q[k]
    {
      assert q[k] == Quote + labels[k] + Quote;
    }
    var h := HeaderLine(labels, [c]);
    assert h[..|h| - 1] == Join(q, [c]);
    SplitOfJoin(q, c);
  }

  // ---------------------------------------------------------------- cells

  /** `Utils.stringReplace(s, "\"", "\"\"")`: every quote doubled. */
  function DoubleQuotes(s: Str): (r: Str)
    ensures |r| >= |s|
  {
    if s == [] then []
    else (if s[0] == '"' then "\"\"" else [s[0]]) + DoubleQuotes(s[1..])
  }

  /** Reading a quoted field back: a doubled quote stands for one quote. */
  function Undouble(t: Str): Str
    decreases |t|
  {
    if t == [] then []
    else if |t| >= 2 && t[0] == '"' && t[1] == '"' then "\"" + Undouble(t[2..])
    else [t[0]] + Undouble(t[1..])
  }

  /** Doubling the quotes loses nothing: reading the field back gives the text. */
  lemma {:induction false} UndoubleDoubled(s: Str)
    ensures Undouble(DoubleQuotes(s)) == s
  {
    if s != [] {
      UndoubleDoubled(s[1..]);
      var head: Str := if s[0] == '"' then "\"\"" else [s[0]];
      var t := head + DoubleQuotes(s[1..]);
      assert t == DoubleQuotes(s);
      if s[0] == '"' {
        assert t[2..] == DoubleQuotes(s[1..]);
      } else {
        assert t[1..] == DoubleQuotes(s[1..]);
      }
      assert s == [s[0]] + s[1..];
    }
  }

  /** `realValueIndexOf`: the first position of the value among the real values, or -1. */
  function RealValueIndexOf(vl: ValueList, v: CellValue): (i: int)
    ensures -1 <= i < |vl.entries|
    ensures i >= 0 ==> vl.entries[i].0 == v && forall j :: 0 <= j < i ==> vl.entries[j].0 != v
    ensures i == -1 ==> forall j :: 0 <= j < |vl.entries| ==> vl.entries[j].0 != v
    decreases |vl.entries|
  {
    if |vl.entries| == 0 then -1
    else if vl.entries[0].0 == v then 0
    else
      var i := RealValueIndexOf(ValueList(vl.entries[1..]), v);
      if i == -1 then -1 else i + 1
  }

  /** The value written: the value list's display element when it knows the raw value. */
  function Shown(list: Option<ValueList>, v: CellValue): CellValue {
    if list.Some? && RealValueIndexOf(list.value, v) != -1
    then list.value.entries[RealValueIndexOf(list.value, v)].1
    else v
  }

  /** The cells that get quotes around them: a non-empty String and a Date. */
  predicate QuotedKind(v: CellValue) {
    (v.Text? && v.s != "") || v.Date?
  }

  /** `obj` after the formatting step: a Date or Number with a pattern becomes its formatted String, unless the formatter throws. */
  function Formatted(v: CellValue, format: Option<Str>, f: Formatters): CellValue {
    if format.None? then v
    else if v.Date? && f.formatDate(format.value, v.time).Some? then Text(f.formatDate(format.value, v.time).value)
    else if v.Number? && f.formatNumber(format.value, v.n).Some? then Text(f.formatNumber(format.value, v.n).value)
    else v
  }

  /** The characters `fData.append(obj)` adds: nothing for null, the (escaped, formatted) text otherwise. */
  function Written(v: CellValue, format: Option<Str>, f: Formatters): Str {
    if v == Null then ""
    else if v.Text? then DoubleQuotes(v.s)
    else
      var g := Formatted(v, format, f);
      if g.Text? then g.s else f.toString(g)
  }

  /**
   * One cell as written: the opening quote is decided on the value before
   * formatting, the closing quote on the value after it, so a formatted Number
   * gets a closing quote only and a Date formatted to "" an opening one only.
   */
  function CellAsWritten(v: CellValue, list: Option<ValueList>, format: Option<Str>, f: Formatters): Str {
    var obj := Shown(list, v);
    var after := if obj.Text? then Text(DoubleQuotes(obj.s)) else if obj == Null then Null else Formatted(obj, format, f);
    (if QuotedKind(obj) then Quote else "") + Written(obj, format, f) + (if QuotedKind(after) then Quote else "")
  }

  /** One cell: quoted on both sides exactly when the value shown is a non-empty String or a Date. */
  function Cell(v: CellValue, list: Option<ValueList>, format: Option<Str>, f: Formatters): Str {
    var obj := Shown(list, v);
    if QuotedKind(obj) then Quoted(Written(obj, format, f)) else Written(obj, format, f)
  }

  /** A Number formatted as `1.5` is written `1.5"` by the code as written. */
  lemma FormattedNumberHalfQuoted(f: Formatters)
    requires f.formatNumber("0.0", 3 as real / 2 as real) == Some("1.5")
    ensures CellAsWritten(Number(3 as real / 2 as real), None, Some("0.0"), f) == "1.5\""
    ensures Cell(Number(3 as real / 2 as real), None, Some("0.0"), f) == "1.5"
  {
  }

  /**
   * The corrected cell adds either no quote or one on each side of what is
   * written, and it adds them exactly for a non-empty String or a Date.
   */
  lemma CellQuotesPaired(v: CellValue, list: Option<ValueList>, format: Option<Str>, f: Formatters)
    ensures var c := Cell(v, list, format, f);
            var w := Written(Shown(list, v), format, f);
            && |c| == |w| + (if QuotedKind(Shown(list, v)) then 2 else 0)
            && (QuotedKind(Shown(list, v)) ==> c[0] == '"' && c[|c| - 1] == '"' && c[1..|c| - 1] == w)
  {
  }

  /** Where no pattern applies, the code as written and the corrected cell agree. */
  lemma CellVersionsAgree(v: CellValue, list: Option<ValueList>, format: Option<Str>, f: Formatters)
    requires format.None? || !(Shown(list, v).Date? || Shown(list, v).Number?)
    ensures CellAsWritten(v, list, format, f) == Cell(v, list, format, f)
  {
    var obj := Shown(list, v);
    if obj.Text? && obj.s != "" {
      assert DoubleQuotes(obj.s) != "";
    }
  }

  /** Null and the empty String are written as nothing, without quotes. */
  lemma EmptyCells(v: CellValue, list: Option<ValueList>, format: Option<Str>, f: Formatters)
    requires Shown(list, v) == Null || Shown(list, v) == Text("")
    ensures Cell(v, list, format, f) == ""
    ensures CellAsWritten(v, list, format, f) == ""
  {
  }

  /**
   * A non-empty String is enclosed in quotes with its quotes doubled, so that
   * reading the field back gives the String.
   */
  lemma TextCell(v: CellValue, list: Option<ValueList>, format: Option<Str>, f: Formatters)
    requires Shown(list, v).Text? && Shown(list, v).s != ""
    ensures var c := Cell(v, list, format, f);
            && |c| >= 2 && c[0] == '"' && c[|c| - 1] == '"'
            && Undouble(c[1..|c| - 1]) == Shown(list, v).s
    ensures CellAsWritten(v, list, format, f) == Cell(v, list, format, f)
  {
    CellVersionsAgree(v, list, format, f);
    var c := Cell(v, list, format, f);
    assert c[1..|c| - 1] == DoubleQuotes(Shown(list, v).s);
    UndoubleDoubled(Shown(list, v).s);
  }

  /** An unformatted Date is its string form in one pair of quotes. */
  lemma DateCell(v: CellValue, list: Option<ValueList>, format: Option<Str>, f: Formatters)
    requires Shown(list, v).Date?
    requires format.None? || f.formatDate(format.value, Shown(list, v).time).None?
    ensures Cell(v, list, format, f) == Quote + f.toString(Shown(list, v)) + Quote
    ensures CellAsWritten(v, list, format, f) == Cell(v, list, format, f)
  {
  }

  /** A raw value the value list knows is written as its display element would be. */
  lemma DisplayValueWritten(v: CellValue, vl: ValueList, format: Option<Str>, f: Formatters)
    requires RealValueIndexOf(vl, v) != -1
    ensures Cell(v, Some(vl), format, f) == Cell(vl.entries[RealValueIndexOf(vl, v)].1, None, format, f)
    ensures CellAsWritten(v, Some(vl), format, f) == CellAsWritten(vl.entries[RealValueIndexOf(vl, v)].1, None, format, f)
    ensures forall j :: 0 <= j < |vl.entries| && vl.entries[j].0 == v ==> RealValueIndexOf(vl, v) <= j
  {
  }

  // ---------------------------------------------------------------- lines

  /** The columns of an export: data providers, separator, runtime value lists and patterns. */
  datatype Layout = Layout(
    providers: seq<Str>,
    sep: Str,
    lists: seq<Option<ValueList>>,
    formats: Option<seq<Option<Str>>>,
    f: Formatters)

  predicate WellFormed(l: Layout) {
    |l.lists| == |l.providers| && (l.formats.Some? ==> |l.formats.value| >= |l.providers|)
  }

  function FormatOf(formats: Option<seq<Option<Str>>>, k: nat): Option<Str>
    requires formats.Some? ==> k < |formats.value|
  {
    if formats.None? then None else formats.value[k]
  }

  function RowCells(l: Layout, r: Record): (cells: seq<Str>)
    requires WellFormed(l)
    ensures |cells| == |l.providers|
  {
    seq(|l.providers|, k requires 0 <= k < |l.providers| => CellAsWritten(r(l.providers[k]), l.lists[k], FormatOf(l.formats, k), l.f))
  }

  /** A record's line: its cells with `sep` between them. */
  function RowLine(l: Layout, r: Record): Str
    requires WellFormed(l)
  {
    Join(RowCells(l, r), l.sep)
  }

  /** The records' lines, in foundset order. */
  function RowLines(l: Layout, records: seq<Record>): (lines: seq<Str>)
    requires WellFormed(l)
    ensures |lines| == |records|
    ensures forall i :: 0 <= i < |records| ==> lines[i] == RowLine(l, records[i])
  {
    seq(|records|, i requires 0 <= i < |records| => RowLine(l, records[i]))
  }

  /** Lines written one after the other, each ended by a newline. */
  function Terminated(lines: seq<Str>): Str {
    if lines == [] then ""
    else Terminated(lines[..|lines| - 1]) + lines[|lines| - 1] + "\n"
  }

  /** The whole export: every record's line, each ended by a newline, in foundset order. */
  function FileData(l: Layout, records: seq<Record>): Str
    requires WellFormed(l)
  {
    Terminated(RowLines(l, records))
  }

  /** The value lists resolved for the columns: none without an application or without names. */
  function RuntimeValueLists(resolve: Option<Str -> Option<ValueList>>, valuelists: Option<seq<Option<Str>>>, n: nat): (r: seq<Option<ValueList>>)
    requires resolve.Some? && valuelists.Some? ==> |valuelists.value| >= n
    ensures |r| == n
    ensures resolve.None? || valuelists.None? ==> forall k :: 0 <= k < n ==> r[k].None?
  {
    seq(n, k requires 0 <= k < n =>
      if resolve.Some? && valuelists.Some? && valuelists.value[k].Some? then resolve.value(valuelists.value[k].value) else None)
  }

  /** `populateFileData`. */
  method PopulateFileData(resolve: Option<Str -> Option<ValueList>>, records: seq<Record>, providers: seq<Str>, sep: Str,
                          formats: Option<seq<Option<Str>>>, valuelists: Option<seq<Option<Str>>>, f: Formatters)
    returns (fData: Str)
    requires formats.Some? ==> |formats.value| >= |providers|
    requires resolve.Some? && valuelists.Some? ==> |valuelists.value| >= |providers|
    ensures fData == FileData(Layout(providers, sep, RuntimeValueLists(resolve, valuelists, |providers|), formats, f), records)
  {
    var n := |providers|;
    var lists: seq<Option<ValueList>> := seq(n, _ => None);
    if resolve.Some? && valuelists.Some? {
      for i := 0 to n
        invariant |lists| == n
        invariant forall k :: 0 <= k < n ==> lists[k] == (if k < i then RuntimeValueLists(resolve, valuelists, n)[k] else None)
      {
        if valuelists.value[i].Some? {
          lists := lists[i := resolve.value(valuelists.value[i].value)];
        }
      }
    }
    assert lists == RuntimeValueLists(resolve, valuelists, n);
    var layout := Layout(providers, sep, lists, formats, f);
    fData := "";
    for i := 0 to |records|
      invariant fData == FileData(layout, records[..i])
    {
      var s := records[i];
      ghost var cells := RowCells(layout, s);
      var line := "";
      for k := 0 to n
        invariant line == Partial(cells, k, sep)
      {
        PartialStep(cells, k, sep);
        var cell := CellAsWritten(s(providers[k]), lists[k], FormatOf(formats, k), f);
        assert cell == cells[k];
        line := line + cell;
        if k < n - 1 {
          line := line + sep;
        }
      }
      assert cells[..n] == cells;
      ghost var lines := RowLines(layout, records[..i + 1]);
      assert lines[..i] == RowLines(layout, records[..i]);
      assert lines[i] == line;
      fData := fData + line + "\n";
    }
    assert records[..|records|] == records;
  }

  /** An export of one formatted Number column carries the half-quoted cell of the code as written. */
  lemma HalfQuotedInExport(f: Formatters, provider: Str, r: Record, sep: Str)
    requires f.formatNumber("0.0", 3 as real / 2 as real) == Some("1.5")
    requires r(provider) == Number(3 as real / 2 as real)
    ensures FileData(Layout([provider], sep, [None], Some([Some("0.0")]), f), [r]) == "1.5\"\n"
  {
    var l := Layout([provider], sep, [None], Some([Some("0.0")]), f);
    FormattedNumberHalfQuoted(f);
    assert RowCells(l, r) == [CellAsWritten(Number(3 as real / 2 as real), None, Some("0.0"), f)];
    assert RowLine(l, r) == "1.5\"";
    assert RowLines(l, [r]) == [RowLine(l, r)];
    assert [RowLine(l, r)][..0] == [];
    assert Terminated([RowLine(l, r)]) == Terminated([]) + RowLine(l, r) + "\n";
  }

  lemma {:induction false} TerminatedAppend(a: seq<Str>, b: seq<Str>)
    ensures Terminated(a + b) == Terminated(a) + Terminated(b)
    decreases |b|
  {
    if b == [] {
      assert a + b == a;
    } else {
      var b' := b[..|b| - 1];
      var end := b[|b| - 1] + "\n";
      TerminatedAppend(a, b');
      var ab := a + b;
      assert ab[..|ab| - 1] == a + b';
      assert ab[|ab| - 1] == b[|b| - 1];
      assert Terminated(ab) == Terminated(a + b') + end;
      assert Terminated(b) == Terminated(b') + end;
      assert Terminated(a + b') + end == Terminated(a) + (Terminated(b') + end);
    }
  }

  /** Exporting two runs of records one after the other is exporting them together: record order is kept. */
  lemma FileDataAppend(l: Layout, a: seq<Record>, b: seq<Record>)
    requires WellFormed(l)
    ensures FileData(l, a + b) == FileData(l, a) + FileData(l, b)
  {
    assert RowLines(l, a + b) == RowLines(l, a) + RowLines(l, b);
    TerminatedAppend(RowLines(l, a), RowLines(l, b));
  }

  function Count(s: Str, c: char): nat {
    if s == [] then 0 else (if s[0] == c then 1 else 0) + Count(s[1..], c)
  }

  lemma {:induction false} CountAppend(s: Str, t: Str, c: char)
    ensures Count(s + t, c) == Count(s, c) + Count(t, c)
    decreases |s|
  {
    if s == [] {
      assert s + t == t;
    } else {
      CountAppend(s[1..], t, c);
      assert (s + t)[1..] == s[1..] + t;
    }
  }

  lemma {:induction false} CountAbsent(s: Str, c: char)
    requires c !in s
    ensures Count(s, c) == 0
    decreases |s|
  {
    if s != [] {
      CountAbsent(s[1..], c);
    }
  }

  lemma {:induction false} TerminatedCount(lines: seq<Str>)
    requires forall i :: 0 <= i < |lines| ==> '\n' !in lines[i]
    ensures Count(Terminated(lines), '\n') == |lines|
    decreases |lines|
  {
    if lines != [] {
      var init := lines[..|lines| - 1];
      var last := lines[|lines| - 1];
      TerminatedCount(init);
      CountAppend(Terminated(init), last, '\n');
      CountAppend(Terminated(init) + last, "\n", '\n');
      CountAbsent(last, '\n');
    }
  }

  /** When no line holds a newline of its own, the export has exactly one newline per record. */
  lemma OneLinePerRecord(l: Layout, records: seq<Record>)
    requires WellFormed(l)
    requires forall i :: 0 <= i < |records| ==> '\n' !in RowLine(l, records[i])
    ensures Count(FileData(l, records), '\n') == |records|
  {
    TerminatedCount(RowLines(l, records));
  }

  /**
   * With a one-character separator that no cell contains, a line splits back
   * into its cells (the last must be non-empty, as `split` drops trailing
   * empty strings): one separator after every cell but the last.
   */
  lemma RowFields(l: Layout, r: Record, c: char)
    requires WellFormed(l) && l.sep == [c]
    requires |l.providers| > 1
    requires forall k :: 0 <= k < |l.providers| ==> c !in RowCells(l, r)[k]
    requires RowCells(l, r)[|l.providers| - 1] != ""
    ensures Split(RowLine(l, r), c) == RowCells(l, r)
  {
    SplitOfJoin(RowCells(l, r), c);
  }
}
