/** The quote-aware field splitter that `parseCSV` runs over every data line
    (process_medicines.js, lines 16-32). */
module Tokenizer {
  import opened Text

  /** What the character loop has built after reading a prefix of the line:
      the finished fields, the field being accumulated, and whether the
      scan is inside a quoted segment. */
  datatype ScanState = ScanState(values: seq<string>, current: string, inQuotes: bool)

  const Start := ScanState([], "", false)

  /** One turn of the character loop: a `"` toggles the quote flag and is
      dropped, a `,` outside quotes closes the current field (trimmed), any
      other character is appended to the current field. */
  function Step(st: ScanState, c: char): ScanState {
    if c == '"' then st.(inQuotes := !st.inQuotes)
    else if c == ',' && !st.inQuotes then ScanState(st.values + [Trim(st.current)], "", st.inQuotes)
    else st.(current := st.current + [c])
  }

  /** The state after feeding the characters of `s`, left to right, to `Step`. */
  function Run(st: ScanState, s: string): ScanState
    decreases |s|
  {
    if s == [] then st else Step(Run(st, s[..|s| - 1]), s[|s| - 1])
  }

  /** The fields of a line: the closed fields followed by the trimmed
      remainder of the buffer. */
  function Fields(line: string): (fs: seq<string>)
    ensures |fs| >= 1
  {
    var st := Run(Start, line);
    st.values + [Trim(st.current)]
  }

  /** The character loop of `parseCSV`, with its `current` buffer, its
      `inQuotes` flag and its `values` list. */
  method TokenizeLine(line: string) returns (values: seq<string>)
    ensures values == Fields(line)
  {
    values := [];
    var current := "";
    var inQuotes := false;
    var j := 0;
    while j < |line|
      invariant 0 <= j <= |line|
      invariant Run(Start, line[..j]) == ScanState(values, current, inQuotes)
    {
      var c := line[j];
      if c == '"' {
        inQuotes := !inQuotes;
      } else if c == ',' && !inQuotes {
        values := values + [Trim(current)];
        current := "";
      } else {
        current := current + [c];
      }
      assert line[..j + 1][..j] == line[..j];
      j := j + 1;
    }
    assert line[..j] == line;
    values := values + [Trim(current)];
  }

  // ---------------------------------------------------------------------
  // An independent account of the separators: quote parity by counting.

  /** The number of `"` characters in `s`. */
  function QuoteCount(s: string): nat
    decreases |s|
  {
    if s == [] then 0
    else QuoteCount(s[..|s| - 1]) + (if s[|s| - 1] == '"' then 1 else 0)
  }

  /** The number of commas in `s` preceded by an even number of quotes,
      i.e. the commas that stand outside every quoted segment. */
  function SeparatorCount(s: string): nat
    decreases |s|
  {
    if s == [] then 0
    else SeparatorCount(s[..|s| - 1])
         + (if s[|s| - 1] == ',' && QuoteCount(s[..|s| - 1]) % 2 == 0 then 1 else 0)
  }

  /** A field as the tokenizer emits it: no white space at either end and
      no quote character. */
  predicate Clean(f: string) {
    Trimmed(f) && '"' !in f
  }

  /** What the character loop maintains: the flag is the parity of the
      quotes read so far, one field has been closed per separator, and no
      quote ever reaches a field. */
  lemma {:induction false} RunFacts(line: string)
    ensures Run(Start, line).inQuotes <==> QuoteCount(line) % 2 == 1
    ensures |Run(Start, line).values| == SeparatorCount(line)
    ensures '"' !in Run(Start, line).current
    ensures forall k :: 0 <= k < |Run(Start, line).values| ==> Clean(Run(Start, line).values[k])
    decreases |line|
  {
    if line != [] {
      var p, c := line[..|line| - 1], line[|line| - 1];
      RunFacts(p);
      var st := Run(Start, p);
      assert Run(Start, line) == Step(st, c);
      StepKeepsClean(st, c);
    }
  }

  /** One step closes at most one field, and that field is clean. */
  lemma StepKeepsClean(st: ScanState, c: char)
    requires '"' !in st.current
    requires forall k :: 0 <= k < |st.values| ==> Clean(st.values[k])
    ensures '"' !in Step(st, c).current
    ensures forall k :: 0 <= k < |Step(st, c).values| ==> Clean(Step(st, c).values[k])
  {
    if c == '"' {
      assert Step(st, c).values == st.values && Step(st, c).current == st.current;
    } else if c == ',' && !st.inQuotes {
      TrimClean(st.current);
      CleanSnoc(st.values, Trim(st.current));
    } else {
      assert Step(st, c).values == st.values && Step(st, c).current == st.current + [c];
    }
  }

  lemma TrimClean(s: string)
    requires '"' !in s
    ensures Clean(Trim(s))
  {
    TrimSpec(s);
  }

  lemma CleanSnoc(vs: seq<string>, t: string)
    requires forall k :: 0 <= k < |vs| ==> Clean(vs[k])
    requires Clean(t)
    ensures forall k :: 0 <= k < |vs + [t]| ==> Clean((vs + [t])[k])
  {
  }

  /** A line yields exactly one field more than it has commas outside
      quoted segments. */
  lemma FieldCount(line: string)
    ensures |Fields(line)| == SeparatorCount(line) + 1
  {
    RunFacts(line);
  }

  /** Every field is trimmed and free of quote characters. */
  lemma FieldsClean(line: string)
    ensures forall k :: 0 <= k < |Fields(line)| ==> Clean(Fields(line)[k])
  {
    RunFacts(line);
  }

  // ---------------------------------------------------------------------
  // Round trip: quoting every field and joining with commas.

  function Quote(f: string): string {
    ['"'] + f + ['"']
  }

  /** The line `"f0","f1",...,"fn"`. */
  function JoinQuoted(fs: seq<string>): (line: string)
    requires |fs| >= 1
    ensures |line| >= 2 && line[0] == '"'
    decreases |fs|
  {
    if |fs| == 1 then Quote(fs[0])
    else JoinQuoted(fs[..|fs| - 1]) + [','] + Quote(fs[|fs| - 1])
  }

  lemma {:induction false} RunAppend(st: ScanState, a: string, b: string)
    ensures Run(st, a + b) == Run(Run(st, a), b)
    decreases |b|
  {
    if b == [] {
      assert a + b == a;
    } else {
      assert (a + b)[..|a + b| - 1] == a + b[..|b| - 1];
      RunAppend(st, a, b[..|b| - 1]);
    }
  }

  /** Inside a quoted segment every character but a quote, commas included,
      goes to the current field. */
  lemma {:induction false} RunInsideQuotes(vs: seq<string>, cur: string, f: string)
    requires '"' !in f
    ensures Run(ScanState(vs, cur, true), f) == ScanState(vs, cur + f, true)
    decreases |f|
  {
    if f == [] {
      assert cur + f == cur;
    } else {
      RunInsideQuotes(vs, cur, f[..|f| - 1]);
      assert cur + f == (cur + f[..|f| - 1]) + [f[|f| - 1]];
    }
  }

  lemma RunQuote(vs: seq<string>, f: string)
    requires '"' !in f
    ensures Run(ScanState(vs, "", false), Quote(f)) == ScanState(vs, f, false)
  {
    var st := ScanState(vs, "", false);
    RunAppend(st, ['"'] + f, ['"']);
    RunAppend(st, ['"'], f);
    assert Run(st, ['"']) == ScanState(vs, "", true) by {
      assert ['"'][..0] == [];
    }
    RunInsideQuotes(vs, "", f);
    assert [] + f == f;
    assert ['"'][..0] == [];
  }

  lemma {:induction false} RunJoinQuoted(fs: seq<string>)
    requires |fs| >= 1
    requires forall k :: 0 <= k < |fs| ==> Clean(fs[k])
    ensures Run(Start, JoinQuoted(fs)) == ScanState(fs[..|fs| - 1], fs[|fs| - 1], false)
    decreases |fs|
  {
    var n := |fs|;
    if n == 1 {
      RunQuote([], fs[0]);
    } else {
      var init := fs[..n - 1];
      assert init[..n - 2] == fs[..n - 2];
      RunJoinQuoted(init);
      RunAppend(Start, JoinQuoted(init) + [','], Quote(fs[n - 1]));
      RunAppend(Start, JoinQuoted(init), [',']);
      assert [','][..0] == [];
      TrimOfTrimmed(fs[n - 2]);
      SplitLast(fs[..n - 1]);
      RunQuote(fs[..n - 1], fs[n - 1]);
    }
  }

  /** Fields written in quotes, joined by commas, are read back unchanged,
      even when they contain commas. */
  lemma QuotedRoundTrip(fs: seq<string>)
    requires |fs| >= 1
    requires forall k :: 0 <= k < |fs| ==> Clean(fs[k])
    ensures Fields(JoinQuoted(fs)) == fs
  {
    RunJoinQuoted(fs);
    TrimOfTrimmed(fs[|fs| - 1]);
    SplitLast(fs);
  }
}
