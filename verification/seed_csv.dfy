/** `parseCSV` of the import script: the content is trimmed and split into
    lines at '\n'; the first line is split at every comma into headers; each
    further line is tokenised character by character, where '"' flips a
    quote flag and is dropped and a comma outside quotes ends a field. Every
    header and value is trimmed and loses all '\r'. Each row maps every
    header to the value at the same index, or '' when there is none.

    This departs from section 2 of RFC 4180: a doubled quote inside a quoted
    field (rule 7) yields nothing instead of one '"', and a quoted line break
    (rule 6) cannot occur because lines are cut before tokenising. */
module SeedCsv {
  import opened JsStrings
  import Seqs

  /** `.trim().replace(/\r/g, '')`: no '\r' is left, neither end is white
      space, and neither '"' nor '\n' appears unless `s` has it. */
  function Clean(s: string): (r: string)
    ensures '\r' !in r
    ensures r == [] || (!IsSpace(r[0]) && !IsSpace(r[|r| - 1]))
    ensures '"' !in s ==> '"' !in r
    ensures '\n' !in s ==> '\n' !in r
    ensures ',' !in s ==> ',' !in r
  {
    var t := Trim(s);
    var r := RemoveAll(t, '\r');
    assert '"' !in s ==> '"' !in r by {
      if '"' !in s { TrimAddsNothing(s, '"'); RemoveAllAddsNothing(t, '\r', '"'); }
    }
    assert '\n' !in s ==> '\n' !in r by {
      if '\n' !in s { TrimAddsNothing(s, '\n'); RemoveAllAddsNothing(t, '\r', '\n'); }
    }
    assert ',' !in s ==> ',' !in r by {
      if ',' !in s { TrimAddsNothing(s, ','); RemoveAllAddsNothing(t, '\r', ','); }
    }
    TrimThenRemoveCR(s);
    r
  }

  /** What `Clean` keeps: the middle of `s` between two runs of white space,
      with every '\r' taken out. */
  lemma {:induction false} CleanKeepsMiddle(s: string)
    ensures exists i, j :: 0 <= i <= j <= |s| && AllSpace(s[..i]) && AllSpace(s[j..])
                        && Clean(s) == RemoveAll(s[i..j], '\r')
  {
    TrimIsMiddle(s);
    var i :| TrimmedAt(s, i, Trim(s));
    var j := i + |Trim(s)|;
    assert s[i..j] == Trim(s);
  }

  /** Text with no '\r' and no white space at either end comes out as it is. */
  lemma {:induction false} CleanKeepsTrimmed(s: string)
    requires '\r' !in s
    requires s == [] || (!IsSpace(s[0]) && !IsSpace(s[|s| - 1]))
    ensures Clean(s) == s
  {
    TrimNoSpaceEnds(s);
    RemoveAllAbsent(s, '\r');
  }

  /** Cleaning a cleaned text changes nothing. */
  lemma {:induction false} CleanIdempotent(s: string)
    ensures Clean(Clean(s)) == Clean(s)
  {
    CleanKeepsTrimmed(Clean(s));
  }

  // ---------------------------------------------------------- the tokeniser

  /** The tokeniser's variables: the finished values, the field being read
      and the quote flag. */
  datatype Tok = Tok(values: seq<string>, current: string, inQuotes: bool)

  const Start := Tok([], "", false)

  /** One character of a data line. */
  function Step(t: Tok, c: char): Tok {
    if c == '"' then t.(inQuotes := !t.inQuotes)
    else if c == ',' && !t.inQuotes then Tok(t.values + [Clean(t.current)], "", t.inQuotes)
    else t.(current := t.current + [c])
  }

  /** The tokeniser's variables after reading `s` from `t`. */
  function Run(t: Tok, s: string): Tok
  {
    if s == [] then t else Step(Run(t, s[..|s| - 1]), s[|s| - 1])
  }

  /** The values of a data line: the finished values and the last field. */
  function Fields(line: string): (r: seq<string>)
    ensures |r| >= 1
  {
    var t := Run(Start, line);
    t.values + [Clean(t.current)]
  }

  /** Number of '"' in `s`. */
  function Quotes(s: string): nat {
    if s == [] then 0 else Quotes(s[..|s| - 1]) + (if s[|s| - 1] == '"' then 1 else 0)
  }

  /** Number of commas of `s` preceded by an even number of '"'. */
  function UnquotedCommas(s: string): nat {
    if s == [] then 0
    else UnquotedCommas(s[..|s| - 1]) + (if s[|s| - 1] == ',' && Quotes(s[..|s| - 1]) % 2 == 0 then 1 else 0)
  }

  /** After reading `s`, the flag says whether an odd number of '"' was read,
      one value was finished per comma outside quotes, and no value or
      pending field holds a '"'. */
  lemma {:induction false} RunInvariant(s: string)
    ensures Run(Start, s).inQuotes <==> Quotes(s) % 2 == 1
    ensures |Run(Start, s).values| == UnquotedCommas(s)
    ensures '"' !in Run(Start, s).current
    ensures forall k :: 0 <= k < |Run(Start, s).values| ==> '"' !in Run(Start, s).values[k]
  {
    if s != [] {
      RunInvariant(s[..|s| - 1]);
      var t := Run(Start, s[..|s| - 1]);
      var c := s[|s| - 1];
      if c == ',' && !t.inQuotes {
        assert '"' !in Clean(t.current);
      }
    }
  }

  /** A data line with k commas outside quotes yields k + 1 values. */
  lemma FieldCount(line: string)
    ensures |Fields(line)| == UnquotedCommas(line) + 1
  {
    RunInvariant(line);
  }

  /** No value holds a '"' or a '\r'. */
  lemma FieldsHaveNoQuoteOrCR(line: string)
    ensures forall k :: 0 <= k < |Fields(line)| ==> '"' !in Fields(line)[k] && '\r' !in Fields(line)[k]
  {
    RunInvariant(line);
    var t := Run(Start, line);
    var r := Fields(line);
    assert r == t.values + [Clean(t.current)];
    forall k | 0 <= k < |r| ensures '"' !in r[k] && '\r' !in r[k] {
      if k < |t.values| {
        assert r[k] == t.values[k];
        RunValuesCleaned(Start, line, k);
      } else {
        assert r[k] == Clean(t.current);
      }
    }
  }

  /** Every finished value is the cleaned text of some field. */
  lemma {:induction false} RunValuesCleaned(t: Tok, s: string, k: nat)
    requires forall i :: 0 <= i < |t.values| ==> '\r' !in t.values[i]
    requires k < |Run(t, s).values|
    ensures '\r' !in Run(t, s).values[k]
  {
    if s != [] {
      var u := Run(t, s[..|s| - 1]);
      forall i | 0 <= i < |u.values| ensures '\r' !in u.values[i] {
        RunValuesCleaned(t, s[..|s| - 1], i);
      }
    }
  }

  /** Reading `a` then `b` is reading `a + b`. */
  lemma {:induction false} RunConcat(t: Tok, a: string, b: string)
    ensures Run(t, a + b) == Run(Run(t, a), b)
    decreases |b|
  {
    if b == [] {
      assert a + b == a;
    } else {
      assert (a + b)[..|a + b| - 1] == a + b[..|b| - 1];
      RunConcat(t, a, b[..|b| - 1]);
    }
  }

  /** A doubled quote contributes nothing: `""` inside a field vanishes
      instead of standing for one '"'. */
  lemma DoubledQuoteVanishes(p: string, q: string)
    ensures Fields(p + "\"\"" + q) == Fields(p + q)
  {
    var t := Run(Start, p);
    RunConcat(Start, p + "\"\"", q);
    RunConcat(Start, p, "\"\"");
    RunConcat(Start, p, q);
    assert "\"\""[..1] == "\"";
    assert Run(t, "\"") == Step(Run(t, []), '"');
    assert Run(t, "\"\"") == t;
  }

  /** The values already finished are carried along untouched. */
  lemma {:induction false} RunKeepsFinished(pre: seq<string>, t: Tok, s: string)
    ensures Run(Tok(pre + t.values, t.current, t.inQuotes), s)
         == Tok(pre + Run(t, s).values, Run(t, s).current, Run(t, s).inQuotes)
  {
    if s != [] {
      var c := s[|s| - 1];
      RunKeepsFinished(pre, t, s[..|s| - 1]);
      var u := Run(t, s[..|s| - 1]);
      if c == ',' && !u.inQuotes {
        var v := Clean(u.current);
        assert pre + u.values + [v] == pre + (u.values + [v]);
      }
    }
  }

  /** A comma after an even number of quotes separates the values of the two
      sides. */
  lemma UnquotedCommaSplits(a: string, b: string)
    requires Quotes(a) % 2 == 0
    ensures Fields(a + "," + b) == Fields(a) + Fields(b)
  {
    var pre := Fields(a);
    var x := a + ",";
    CommaAfterEvenQuotes(a);
    assert x + b == a + "," + b;
    RunConcat(Start, x, b);
    RunAfterFinished(pre, b);
    FieldsOf(x + b, pre, Run(Start, b));
  }

  /** Reading on from a freshly finished field keeps the values so far. */
  lemma RunAfterFinished(pre: seq<string>, b: string)
    ensures Run(Tok(pre, "", false), b) == Tok(pre + Run(Start, b).values, Run(Start, b).current, Run(Start, b).inQuotes)
  {
    assert Tok(pre, "", false) == Tok(pre + Start.values, Start.current, Start.inQuotes);
    RunKeepsFinished(pre, Start, b);
  }

  /** The values of a line whose reader state extends `pre`. */
  lemma FieldsOf(line: string, pre: seq<string>, w: Tok)
    requires Run(Start, line) == Tok(pre + w.values, w.current, w.inQuotes)
    ensures Fields(line) == pre + (w.values + [Clean(w.current)])
  {
    var v := Clean(w.current);
    assert Fields(line) == (pre + w.values) + [v];
    assert (pre + w.values) + [v] == pre + (w.values + [v]);
  }

  /** A comma after an even number of quotes finishes the pending field. */
  lemma CommaAfterEvenQuotes(a: string)
    requires Quotes(a) % 2 == 0
    ensures Run(Start, a + ",") == Tok(Fields(a), "", false)
  {
    RunInvariant(a);
    var t := Run(Start, a);
    RunConcat(Start, a, ",");
    assert ","[..0] == [];
    assert Run(t, ",") == Step(t, ',');
  }

  /** On a line with no '"' and no ',' the reader only accumulates. */
  lemma {:induction false} RunPlain(s: string)
    requires '"' !in s && ',' !in s
    ensures Run(Start, s) == Tok([], s, false)
  {
    if s != [] {
      RunPlain(s[..|s| - 1]);
      assert s[..|s| - 1] + [s[|s| - 1]] == s;
    }
  }

  /** Inside quotes every character other than '"', commas included, goes
      into the pending field. */
  lemma {:induction false} RunInQuotes(t: Tok, a: string)
    requires t.inQuotes && '"' !in a
    ensures Run(t, a) == t.(current := t.current + a)
  {
    if a != [] {
      var p := a[..|a| - 1];
      RunInQuotes(t, p);
      assert t.current + p + [a[|a| - 1]] == t.current + a;
    }
  }

  /** A line that is one quoted text yields that text, cleaned, as its only
      value, whatever commas it holds. */
  lemma {:induction false} QuotedFieldKeepsText(a: string)
    requires '"' !in a
    ensures Fields("\"" + a + "\"") == [Clean(a)]
  {
    var open := Tok([], "", true);
    assert "\""[..0] == [];
    assert Run(Start, "\"") == open;
    RunConcat(Start, "\"", a);
    RunInQuotes(open, a);
    assert open.(current := open.current + a) == Tok([], a, true);
    RunConcat(Start, "\"" + a, "\"");
    assert Run(Tok([], a, true), "\"") == Step(Run(Tok([], a, true), []), '"');
  }

  /** While no comma is read outside quotes, the reader collects every
      character other than '"' into one pending field. */
  lemma {:induction false} RunWithoutSplit(s: string)
    requires UnquotedCommas(s) == 0
    ensures Run(Start, s).values == [] && Run(Start, s).current == RemoveAll(s, '"')
  {
    if s != [] {
      var p, c := s[..|s| - 1], s[|s| - 1];
      var t := Run(Start, p);
      assert UnquotedCommas(p) == 0 && !(c == ',' && Quotes(p) % 2 == 0);
      assert t.values == [] && t.current == RemoveAll(p, '"') by { RunWithoutSplit(p); }
      assert !(c == ',' && !t.inQuotes) by { RunInvariant(p); }
      assert Run(Start, s) == Step(t, c);
      StepWithoutSplit(t, c);
      assert RemoveAll(s, '"') == RemoveAll(p, '"') + RemoveAll([c], '"') by {
        assert p + [c] == s;
        RemoveAllConcat(p, [c], '"');
      }
    }
  }

  /** One step of the above: a character that does not end a field. */
  lemma {:induction false} StepWithoutSplit(t: Tok, c: char)
    requires t.values == [] && !(c == ',' && !t.inQuotes)
    ensures Step(t, c).values == [] && Step(t, c).current == t.current + RemoveAll([c], '"')
  {
    RemoveAllOne(c, '"');
  }

  /** A line with no comma outside quotes is one value: the line without its
      quotes, cleaned. */
  lemma {:induction false} OneFieldWithoutUnquotedComma(line: string)
    requires UnquotedCommas(line) == 0
    ensures Fields(line) == [Clean(RemoveAll(line, '"'))]
  {
    var w := Tok([], RemoveAll(line, '"'), Run(Start, line).inQuotes);
    RunWithoutSplit(line);
    assert [] + w.values == w.values;
    FieldsOf(line, [], w);
  }

  /** `Clean` applied to every piece. */
  function CleanAll(parts: seq<string>): (r: seq<string>)
    ensures |r| == |parts| && forall k :: 0 <= k < |parts| ==> r[k] == Clean(parts[k])
  {
    seq(|parts|, k requires 0 <= k < |parts| => Clean(parts[k]))
  }

  /** Without quotes the tokeniser agrees with splitting at every comma, the
      way the header line is split. */
  lemma {:induction false} QuoteFreeFieldsAreSplit(line: string)
    requires '"' !in line
    ensures Fields(line) == CleanAll(Split(line, ','))
    decreases |line|
  {
    if ',' !in line {
      RunPlain(line);
      SplitNoSeparator(line, ',');
    } else {
      var i := Seqs.FirstIndex(line, ',');
      var a, b := line[..i], line[i + 1..];
      assert line == a + "," + b;
      QuoteFreeFieldsAreSplit(b);
      FirstFieldSplits(a, b);
    }
  }

  /** One step of the above: the text before the first comma. */
  lemma FirstFieldSplits(a: string, b: string)
    requires '"' !in a && ',' !in a
    requires Fields(b) == CleanAll(Split(b, ','))
    ensures Fields(a + "," + b) == CleanAll(Split(a + "," + b, ','))
  {
    FieldsAfterPlainHead(a, b);
    SplitAfterPlainHead(a, b);
  }

  lemma FieldsAfterPlainHead(a: string, b: string)
    requires '"' !in a && ',' !in a
    ensures Fields(a + "," + b) == [Clean(a)] + Fields(b)
  {
    QuoteFreeHasNoQuotes(a);
    UnquotedCommaSplits(a, b);
    PlainFields(a);
  }

  lemma SplitAfterPlainHead(a: string, b: string)
    requires ',' !in a
    ensures CleanAll(Split(a + "," + b, ',')) == [Clean(a)] + CleanAll(Split(b, ','))
  {
    SplitAfterSeparator(a, b, ',');
    assert a + [','] + b == a + "," + b;
    CleanAllConcat([a], Split(b, ','));
    assert CleanAll([a]) == [Clean(a)];
  }

  lemma PlainFields(a: string)
    requires '"' !in a && ',' !in a
    ensures Fields(a) == [Clean(a)]
  {
    RunPlain(a);
  }

  lemma CleanAllConcat(p: seq<string>, q: seq<string>)
    ensures CleanAll(p + q) == CleanAll(p) + CleanAll(q)
  {
  }

  lemma {:induction false} QuoteFreeHasNoQuotes(s: string)
    requires '"' !in s
    ensures Quotes(s) == 0
  {
    if s != [] {
      QuoteFreeHasNoQuotes(s[..|s| - 1]);
    }
  }

  // --------------------------------------------------------------- headers

  /** The header line: split at every comma, quotes or not. */
  function Headers(line: string): (r: seq<string>)
    ensures |r| == Count(line, ',') + 1
    ensures forall k :: 0 <= k < |r| ==> ',' !in r[k] && '\r' !in r[k]
  {
    var parts := Split(line, ',');
    var r := CleanAll(parts);
    assert forall k :: 0 <= k < |r| ==> ',' !in r[k] by {
      forall k | 0 <= k < |r| ensures ',' !in r[k] {
        assert ',' !in parts[k];
      }
    }
    r
  }

  // ------------------------------------------------------------------ rows

  /** `values[index] || ''`. */
  function ValueAt(values: seq<string>, i: nat): string {
    if i < |values| then values[i] else ""
  }

  /** Position of the last occurrence of `h`. */
  function LastIndex(headers: seq<string>, h: string): (k: nat)
    requires h in headers
    ensures k < |headers| && headers[k] == h
    ensures forall j :: k < j < |headers| ==> headers[j] != h
  {
    if headers[|headers| - 1] == h then |headers| - 1
    else LastIndex(headers[..|headers| - 1], h)
  }

  /** `headers.forEach((header, index) => row[header] = values[index] || '')`:
      every header is a key; its value is the one at the index of its LAST
      occurrence, since later writes overwrite; extra values are dropped. */
  function MakeRow(headers: seq<string>, values: seq<string>): (row: map<string, string>)
    ensures forall h :: h in row <==> h in headers
    ensures forall h :: h in row ==> row[h] == ValueAt(values, LastIndex(headers, h))
  {
    if headers == [] then map[]
    else
      var n := |headers| - 1;
      var prev := MakeRow(headers[..n], values);
      assert forall h :: h in headers <==> h in headers[..n] || h == headers[n] by {
        assert headers == headers[..n] + [headers[n]];
      }
      var row := prev[headers[n] := ValueAt(values, n)];
      assert forall h :: h in row ==> row[h] == ValueAt(values, LastIndex(headers, h)) by {
        forall h | h in row ensures row[h] == ValueAt(values, LastIndex(headers, h)) {
          if h != headers[n] {
            assert LastIndex(headers, h) == LastIndex(headers[..n], h);
          }
        }
      }
      row
  }

  // ------------------------------------------------------------- parseCSV

  /** `parseCSV`: one row per line after the header line. */
  method ParseCSV(content: string) returns (rows: seq<map<string, string>>)
    ensures var lines := Split(Trim(content), '\n');
      |rows| == |lines| - 1 &&
      forall i :: 0 <= i < |rows| ==> rows[i] == MakeRow(Headers(lines[0]), Fields(lines[i + 1]))
  {
    var lines := Split(Trim(content), '\n');
    rows := ParseLines(lines);
  }

  /** The loop of `parseCSV` over the lines after the header line. */
  method ParseLines(lines: seq<string>) returns (rows: seq<map<string, string>>)
    requires |lines| >= 1
    ensures |rows| == |lines| - 1
    ensures forall i :: 0 <= i < |rows| ==> rows[i] == MakeRow(Headers(lines[0]), Fields(lines[i + 1]))
  {
    var headers := Headers(lines[0]);
    rows := [];
    var i := 1;
    while i < |lines|
      invariant 1 <= i <= |lines|
      invariant rows == RowsOf(headers, lines, i)
    {
      var values := SplitLine(lines[i]);
      var row := BuildRow(headers, values);
      rows := rows + [row];
      i := i + 1;
    }
    forall r | 0 <= r < |rows| ensures rows[r] == MakeRow(headers, Fields(lines[r + 1])) {
      RowsOfAt(headers, lines, i, r);
    }
  }

  /** The rows of the data lines before line `n`. */
  function RowsOf(headers: seq<string>, lines: seq<string>, n: nat): (rows: seq<map<string, string>>)
    requires 1 <= n <= |lines|
    ensures |rows| == n - 1
  {
    if n == 1 then [] else RowsOf(headers, lines, n - 1) + [MakeRow(headers, Fields(lines[n - 1]))]
  }

  /** The row of data line `r + 1` is `MakeRow` of that line. */
  lemma {:induction false} RowsOfAt(headers: seq<string>, lines: seq<string>, n: nat, r: nat)
    requires 1 <= n <= |lines| && r < n - 1
    ensures RowsOf(headers, lines, n)[r] == MakeRow(headers, Fields(lines[r + 1]))
  {
    var prev := RowsOf(headers, lines, n - 1);
    var m := MakeRow(headers, Fields(lines[n - 1]));
    assert RowsOf(headers, lines, n) == prev + [m];
    if r < n - 2 {
      RowsOfAt(headers, lines, n - 1, r);
      assert (prev + [m])[r] == prev[r];
    } else {
      assert (prev + [m])[r] == m;
    }
  }

  /** The character loop of `parseCSV` over one data line. */
  method SplitLine(line: string) returns (values: seq<string>)
    ensures values == Fields(line)
  {
    values := [];
    var current := "";
    var inQuotes := false;
    var k := 0;
    while k < |line|
      invariant 0 <= k <= |line|
      invariant Run(Start, line[..k]) == Tok(values, current, inQuotes)
    {
      var c := line[k];
      if c == '"' {
        inQuotes := !inQuotes;
      } else if c == ',' && !inQuotes {
        values := values + [Clean(current)];
        current := "";
      } else {
        current := current + [c];
      }
      assert line[..k + 1][..k] == line[..k];
      k := k + 1;
    }
    assert line[..k] == line;
    values := values + [Clean(current)];
  }

  /** The `headers.forEach` loop of `parseCSV`. */
  method BuildRow(headers: seq<string>, values: seq<string>) returns (row: map<string, string>)
    ensures row == MakeRow(headers, values)
  {
    row := map[];
    var index := 0;
    while index < |headers|
      invariant 0 <= index <= |headers|
      invariant row == MakeRow(headers[..index], values)
    {
      row := row[headers[index] := ValueAt(values, index)];
      assert headers[..index + 1][..index] == headers[..index];
      index := index + 1;
    }
    assert headers[..index] == headers;
  }

  /** Lines are cut at '\n' before tokenising, so no value holds a '\n'. */
  lemma NoValueHoldsNewline(content: string, i: nat, k: nat)
    requires 0 < i < |Split(Trim(content), '\n')|
    requires k < |Fields(Split(Trim(content), '\n')[i])|
    ensures '\n' !in Fields(Split(Trim(content), '\n')[i])[k]
  {
    var line := Split(Trim(content), '\n')[i];
    assert '\n' !in line;
    NoNewlineInFields(line, k);
  }

  lemma NoNewlineInFields(line: string, k: nat)
    requires '\n' !in line
    requires k < |Fields(line)|
    ensures '\n' !in Fields(line)[k]
  {
    var t := Run(Start, line);
    RunCharsFromLine(Start, line);
    if k < |t.values| {
      assert '\n' !in t.values[k];
    } else {
      assert '\n' !in Clean(t.current);
    }
  }

  /** What the reader keeps are characters of the line it read. */
  lemma {:induction false} RunCharsFromLine(t: Tok, s: string)
    requires '\n' !in t.current && forall i :: 0 <= i < |t.values| ==> '\n' !in t.values[i]
    requires '\n' !in s
    ensures '\n' !in Run(t, s).current
    ensures forall i :: 0 <= i < |Run(t, s).values| ==> '\n' !in Run(t, s).values[i]
  {
    if s != [] {
      RunCharsFromLine(t, s[..|s| - 1]);
      var u := Run(t, s[..|s| - 1]);
      assert '\n' !in Clean(u.current);
    }
  }
}

