/** `parseCSV` (process_medicines.js, lines 8-72): the header line is
    skipped, every other non-blank line is tokenized, mapped by position to
    a medicine record with defaults, and kept when its name has at least
    two characters. */
module Parser {
  import opened Wrappers
  import opened Text
  import opened Tokenizer
  import opened Price

  /** The standardized medicine object. The source's `type` field is called
      `form` here, since `type` is a Dafny keyword. */
  datatype Medicine = Medicine(
    name: string,
    generic: string,
    company: string,
    power: string,
    form: string,
    stripsPerBox: int,
    piecesPerStrip: int,
    boxPrice: real)

  /** A row needs this many fields to be considered. */
  const MinFields := 8
  const DefaultForm := "tablet"
  const DefaultStrips := 10
  const DefaultPieces := 10

  /** What holds of every record `parseCSV` returns. */
  predicate WellFormed(m: Medicine) {
    && |m.name| >= 2
    && Clean(m.name)
    && m.stripsPerBox == DefaultStrips
    && m.piecesPerStrip == DefaultPieces
    && m.boxPrice > 0.0
    && forall k :: 0 <= k < |m.form| ==> !IsUpper(m.form[k])
  }

  /** `values[k] || d`: an absent index reads as `undefined` and the empty
      string is falsy, so both give the default. */
  function FieldOr(values: seq<string>, k: nat, d: string): (r: string)
    ensures k < |values| && values[k] != [] ==> r == values[k]
    ensures (k >= |values| || values[k] == []) ==> r == d
  {
    if k < |values| && values[k] != [] then values[k] else d
  }

  /** The positional mapping of lines 35-44 and the standardized object of
      lines 54-63: name at index 1, dosage form at 4, generic at 5, strength
      at 6, manufacturer at 7, package info at 8; id (index 0) and category
      (index 2) are computed by the source and then discarded. */
  function BuildRecord(values: seq<string>): (m: Medicine)
    requires |values| >= MinFields
    ensures m.name == values[1] && m.generic == values[5]
    ensures m.power == values[6] && m.company == values[7]
    ensures m.stripsPerBox == DefaultStrips && m.piecesPerStrip == DefaultPieces
    ensures m.form == if values[4] == [] then DefaultForm else Lower(values[4])
    ensures forall k :: 0 <= k < |m.form| ==> !IsUpper(m.form[k])
    ensures m.boxPrice > 0.0
    ensures |values| > MinFields ==> m.boxPrice == BoxPrice(values[8])
    ensures |values| == MinFields ==> m.boxPrice == DefaultBoxPrice
  {
    LowerSpec(FieldOr(values, 4, DefaultForm));
    assert Lower(DefaultForm) == DefaultForm;
    assert PriceMatch("").None?;
    Medicine(
      FieldOr(values, 1, ""),
      FieldOr(values, 5, ""),
      FieldOr(values, 7, ""),
      FieldOr(values, 6, ""),
      Lower(FieldOr(values, 4, DefaultForm)),
      DefaultStrips,
      DefaultPieces,
      BoxPrice(FieldOr(values, 8, "")))
  }

  /** Without a package-info field, or when its text does not match the price
      pattern, the box price is 100. */
  lemma PriceDefault(values: seq<string>)
    requires |values| >= MinFields
    requires |values| == MinFields || PriceMatch(values[8]).None?
    ensures BuildRecord(values).boxPrice == DefaultBoxPrice
  {
    if |values| == MinFields {
      assert PriceMatch("").None?;
    }
  }

  /** The record one data line contributes, if any: none for a blank line,
      none for fewer than eight fields, none for a name shorter than two
      characters. */
  function RowRecord(line: string): (r: Option<Medicine>)
    ensures AllSpace(line) ==> r.None?
    ensures |Fields(line)| < MinFields ==> r.None?
    ensures r.Some? ==> WellFormed(r.value)
  {
    TrimEmptyIff(line);
    FieldsClean(line);
    if Trim(line) == [] then None
    else
      var values := Fields(line);
      if |values| < MinFields then None
      else
        var m := BuildRecord(values);
        if |m.name| > 1 then Some(m) else None
  }

  function AsSeq(r: Option<Medicine>): seq<Medicine> {
    if r.Some? then [r.value] else []
  }

  /** What `f` yields for each of `rows`, in order, leaving out the lines
      for which it yields nothing. */
  function Collect(rows: seq<string>, f: string -> Option<Medicine>): seq<Medicine>
    decreases |rows|
  {
    if rows == [] then []
    else Collect(rows[..|rows| - 1], f) + AsSeq(f(rows[|rows| - 1]))
  }

  /** The records of a sequence of data lines, in line order. */
  function Records(rows: seq<string>): seq<Medicine> {
    Collect(rows, RowRecord)
  }

  /** At most one record per line, and every record well formed. */
  lemma {:induction false} RecordsWellFormed(rows: seq<string>)
    ensures |Records(rows)| <= |rows|
    ensures forall k :: 0 <= k < |Records(rows)| ==> WellFormed(Records(rows)[k])
    decreases |rows|
  {
    if rows != [] {
      var init := rows[..|rows| - 1];
      RecordsWellFormed(init);
      var r := RowRecord(rows[|rows| - 1]);
      WellFormedSnoc(Records(init), AsSeq(r));
    }
  }

  lemma WellFormedSnoc(a: seq<Medicine>, b: seq<Medicine>)
    requires forall k :: 0 <= k < |a| ==> WellFormed(a[k])
    requires forall k :: 0 <= k < |b| ==> WellFormed(b[k])
    ensures forall k :: 0 <= k < |a + b| ==> WellFormed((a + b)[k])
  {
  }

  /** `parseCSV` on the lines of the file: line 0 is the header and is
      skipped, then each data line is handled in order. */
  method ParseCsv(lines: seq<string>) returns (medicines: seq<Medicine>)
    ensures lines == [] ==> medicines == []
    ensures lines != [] ==> medicines == Records(lines[1..])
    ensures |medicines| <= if lines == [] then 0 else |lines| - 1
    ensures forall k :: 0 <= k < |medicines| ==> WellFormed(medicines[k])
  {
    medicines := [];
    if lines == [] {
      return;
    }
    for i := 1 to |lines|
      invariant medicines == Records(lines[1..i])
    {
      RecordsNext(lines, i);
      var line := lines[i];
      if Trim(line) == [] {
        continue;
      }
      var values := TokenizeLine(line);
      RowRecordOfFields(line, values);
      if |values| >= MinFields {
        var m := BuildRecord(values);
        if |m.name| > 1 {
          medicines := medicines + [m];
        }
      }
    }
    assert lines[1..|lines|] == lines[1..];
    RecordsWellFormed(lines[1..]);
  }

  /** One more line read: its record, if any, is appended. */
  lemma RecordsNext(lines: seq<string>, i: nat)
    requires 1 <= i < |lines|
    ensures Records(lines[1..i + 1]) == Records(lines[1..i]) + AsSeq(RowRecord(lines[i]))
  {
    var rows := lines[1..i + 1];
    assert rows[..|rows| - 1] == lines[1..i];
    assert rows[|rows| - 1] == lines[i];
  }

  /** The record of a non-blank line, in terms of its fields. */
  lemma RowRecordOfFields(line: string, values: seq<string>)
    requires Trim(line) != [] && values == Fields(line)
    ensures |values| < MinFields ==> RowRecord(line) == None
    ensures |values| >= MinFields ==>
              RowRecord(line) == if |BuildRecord(values).name| > 1 then Some(BuildRecord(values)) else None
  {
  }

  // ---------------------------------------------------------------------
  // Properties of the record sequence.

  /** Records of two runs of lines are the records of each, in order: each
      line contributes independently and the output follows line order. */
  lemma {:induction false} RecordsAppend(a: seq<string>, b: seq<string>)
    ensures Records(a + b) == Records(a) + Records(b)
  {
    CollectAppend(a, b, RowRecord);
  }

  lemma {:induction false} CollectAppend(a: seq<string>, b: seq<string>, f: string -> Option<Medicine>)
    ensures Collect(a + b, f) == Collect(a, f) + Collect(b, f)
    decreases |b|
  {
    if b == [] {
      assert a + b == a;
    } else {
      assert (a + b)[..|a + b| - 1] == a + b[..|b| - 1];
      CollectAppend(a, b[..|b| - 1], f);
    }
  }

  /** A line that yields no record (blank, short, or with a too-short name)
      leaves the output as if it were absent. */
  lemma SkippedLine(a: seq<string>, line: string, b: seq<string>)
    requires RowRecord(line).None?
    ensures Records(a + [line] + b) == Records(a) + Records(b)
  {
    RecordsAppend(a + [line], b);
    RecordsAppend(a, [line]);
    assert [line][..0] == [];
    assert Records(a) + [] == Records(a);
  }

  /** A record is in the output exactly when some data line yields it. */
  lemma RecordsMembership(rows: seq<string>, m: Medicine)
    ensures m in Records(rows) <==> exists i :: 0 <= i < |rows| && RowRecord(rows[i]) == Some(m)
  {
    CollectMembership(rows, RowRecord, m);
  }

  lemma {:induction false} CollectMembership(rows: seq<string>, f: string -> Option<Medicine>, m: Medicine)
    ensures m in Collect(rows, f) <==> exists i :: 0 <= i < |rows| && f(rows[i]) == Some(m)
    decreases |rows|
  {
    if rows != [] {
      var init := rows[..|rows| - 1];
      CollectMembership(init, f, m);
      if m in Collect(init, f) {
        var i :| 0 <= i < |init| && f(init[i]) == Some(m);
        assert rows[i] == init[i];
      }
      if exists i :: 0 <= i < |rows| && f(rows[i]) == Some(m) {
        var i :| 0 <= i < |rows| && f(rows[i]) == Some(m);
        if i < |rows| - 1 {
          assert init[i] == rows[i];
        }
      }
    }
  }

  /** The header line never contributes: whatever the first line holds, the
      result is the same. */
  lemma HeaderIgnored(h1: string, h2: string, rest: seq<string>)
    ensures Records(([h1] + rest)[1..]) == Records(([h2] + rest)[1..])
  {
    assert ([h1] + rest)[1..] == rest == ([h2] + rest)[1..];
  }

  // ---------------------------------------------------------------------
  // A worked example: a quoted name with a comma in it.

  const ExampleFields: seq<string> :=
    ["7", "Napa, Extra", "allopathic", "x", "Tablet", "Paracetamol", "500 mg", "Beximco", "Box of 10"]

  lemma ExampleFieldsClean()
    ensures forall k :: 0 <= k < |ExampleFields| ==> Clean(ExampleFields[k])
  {
    forall k | 0 <= k < |ExampleFields| ensures Clean(ExampleFields[k]) {
      assert '"' !in ExampleFields[k];
    }
  }

  /** How a line's record follows from its fields. */
  lemma RowRecordFromFields(line: string, values: seq<string>)
    requires Trim(line) != [] && Fields(line) == values
    requires |values| >= MinFields && |values[1]| > 1
    ensures RowRecord(line) == Some(BuildRecord(values))
  {
  }

  /** A line of quoted fields, at least eight of them, whose name field has
      two characters or more, yields the record built from exactly those
      fields: commas inside the quotes stay in their field. */
  lemma QuotedRow(fs: seq<string>)
    requires |fs| >= MinFields && |fs[1]| > 1
    requires forall k :: 0 <= k < |fs| ==> Clean(fs[k])
    ensures RowRecord(JoinQuoted(fs)) == Some(BuildRecord(fs))
  {
    var line := JoinQuoted(fs);
    QuotedRoundTrip(fs);
    TrimEmptyIff(line);
    RowRecordFromFields(line, fs);
  }

  lemma ExampleForm()
    ensures Lower("Tablet") == "tablet"
  {
  }

  lemma ExamplePrice()
    ensures BoxPrice("Box of 10") == DefaultBoxPrice
  {
    NoMarkerNoMatch("Box of 10");
  }

  /** The fields of the example build the record with the name
      `Napa, Extra`, the type `tablet` and the default price; by `QuotedRow`
      that is the record of the line `"7","Napa, Extra",...,"Box of 10"`. */
  lemma ExampleRecord()
    ensures forall k :: 0 <= k < |ExampleFields| ==> Clean(ExampleFields[k])
    ensures BuildRecord(ExampleFields)
      == Medicine("Napa, Extra", "Paracetamol", "Beximco", "500 mg", "tablet", 10, 10, 100.0)
  {
    ExampleFieldsClean();
    var v := ExampleFields;
    assert v[4] == "Tablet" && v[8] == "Box of 10";
    ExampleForm();
    ExamplePrice();
    BuildRecordFields(v);
  }

  /** The whole record built from `values`: the fields by position, the
      type and the box price with their defaults. */
  lemma BuildRecordFields(values: seq<string>)
    requires |values| >= MinFields
    ensures BuildRecord(values)
      == Medicine(values[1], values[5], values[7], values[6],
                  if values[4] == [] then DefaultForm else Lower(values[4]),
                  DefaultStrips, DefaultPieces,
                  if |values| > MinFields then BoxPrice(values[8]) else DefaultBoxPrice)
  {
  }
}
