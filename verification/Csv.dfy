/**
 The CSV printer against a reader of the format of RFC 4180, section 2: fields that hold a quote, a
 comma or a line break are quoted, and quotes inside them are doubled. Records are separated by a
 line feed, as the printer emits them.
 */
module Csv {
  import opened Options

  /** A cell: null or undefined, or the text its value is converted to. */
  datatype Cell = Empty | Text(text: string)

  /** A row as its own keys in order, each with its cell; a key occurs once. */
  type Row = seq<(string, Cell)>

  function KeysOf(row: Row): seq<string> {
    seq(|row|, i requires 0 <= i < |row| => row[i].0)
  }

  function AddKey(headers: seq<string>, key: string): seq<string> {
    if key in headers then headers else headers + [key]
  }

  /** Keys in order of first appearance. */
  function AddKeys(headers: seq<string>, keys: seq<string>): seq<string>
    decreases |keys|
  {
    if keys == [] then headers
    else AddKeys(AddKey(headers, keys[0]), keys[1..])
  }

  function HeadersOf(rows: seq<Row>): seq<string> {
    if rows == [] then [] else AddKeys(HeadersOf(rows[..|rows| - 1]), KeysOf(rows[|rows| - 1]))
  }

  /** The cell of a row under a header; a missing key reads as undefined. */
  function Lookup(row: Row, header: string): Cell {
    if row == [] then Empty
    else if row[|row| - 1].0 == header then row[|row| - 1].1
    else Lookup(row[..|row| - 1], header)
  }

  /** What a cell shows: nothing for null, else its text. */
  function Shown(c: Cell): string {
    if c.Text? then c.text else ""
  }

  predicate Special(c: char) {
    c == '"' || c == ',' || c == '\n' || c == '\r'
  }

  function DoubleQuotes(s: string): string {
    if s == "" then "" else (if s[0] == '"' then "\"\"" else [s[0]]) + DoubleQuotes(s[1..])
  }

  function EscapeText(s: string): string {
    if exists i :: 0 <= i < |s| && Special(s[i]) then "\"" + DoubleQuotes(s) + "\"" else DoubleQuotes(s)
  }

  function Escape(c: Cell): string {
    if c.Empty? then "" else EscapeText(c.text)
  }

  function Join(parts: seq<string>, separator: char): string {
    if parts == [] then ""
    else if |parts| == 1 then parts[0]
    else parts[0] + [separator] + Join(parts[1..], separator)
  }

  function Line(cells: seq<Cell>): string {
    Join(seq(|cells|, i requires 0 <= i < |cells| => Escape(cells[i])), ',')
  }

  function CellsOf(row: Row, headers: seq<string>): seq<Cell> {
    seq(|headers|, i requires 0 <= i < |headers| => Lookup(row, headers[i]))
  }

  /** The records of a table: the headers, then each row under them. */
  function RecordsOf(rows: seq<Row>): seq<seq<Cell>> {
    var headers := HeadersOf(rows);
    [seq(|headers|, i requires 0 <= i < |headers| => Text(headers[i]))]
    + seq(|rows|, i requires 0 <= i < |rows| => CellsOf(rows[i], headers))
  }

  function Lines(records: seq<seq<Cell>>): seq<string> {
    seq(|records|, i requires 0 <= i < |records| => Line(records[i]))
  }

  function ToCsv(rows: seq<Row>): string {
    if rows == [] then "" else Join(Lines(RecordsOf(rows)), '\n')
  }

  // ---- the reader ----

  /** The rest of a quoted field, after its opening quote, and what follows the closing one. */
  function ReadQuoted(s: string): Option<(string, string)> {
    if s == "" then None
    else if s[0] != '"' then
      var r := ReadQuoted(s[1..]);
      if r.None? then None else Some(([s[0]] + r.value.0, r.value.1))
    else if |s| > 1 && s[1] == '"' then
      var r := ReadQuoted(s[2..]);
      if r.None? then None else Some((['"'] + r.value.0, r.value.1))
    else Some(("", s[1..]))
  }

  /** An unquoted field: everything up to the first special character. */
  function ReadPlain(s: string): (string, string) {
    if s == "" || Special(s[0]) then ("", s)
    else var r := ReadPlain(s[1..]); ([s[0]] + r.0, r.1)
  }

  function ReadField(s: string): Option<(string, string)> {
    if s != "" && s[0] == '"' then ReadQuoted(s[1..]) else Some(ReadPlain(s))
  }

  lemma {:induction false} ReadQuotedShrinks(s: string)
    ensures ReadQuoted(s).Some? ==> |ReadQuoted(s).value.1| < |s|
  {
    if s != "" {
      if s[0] != '"' {
        ReadQuotedShrinks(s[1..]);
      } else if |s| > 1 && s[1] == '"' {
        ReadQuotedShrinks(s[2..]);
      }
    }
  }

  lemma {:induction false} ReadPlainShrinks(s: string)
    ensures |ReadPlain(s).1| <= |s|
  {
    if s != "" && !Special(s[0]) {
      ReadPlainShrinks(s[1..]);
    }
  }

  lemma ReadFieldShrinks(s: string)
    ensures ReadField(s).Some? ==> |ReadField(s).value.1| <= |s|
  {
    if s != "" && s[0] == '"' {
      ReadQuotedShrinks(s[1..]);
    } else {
      ReadPlainShrinks(s);
    }
  }

  /** Fields separated by commas, and the rest of the text. */
  function ReadRecord(s: string): Option<(seq<string>, string)>
    decreases |s|
  {
    ReadFieldShrinks(s);
    var field := ReadField(s);
    if field.None? then None
    else
      var rest := field.value.1;
      if rest == "" || rest[0] != ',' then Some(([field.value.0], rest))
      else
        var more := ReadRecord(rest[1..]);
        if more.None? then None else Some(([field.value.0] + more.value.0, more.value.1))
  }

  lemma {:induction false} ReadRecordShrinks(s: string)
    ensures ReadRecord(s).Some? ==> |ReadRecord(s).value.1| <= |s|
    decreases |s|
  {
    ReadFieldShrinks(s);
    var field := ReadField(s);
    if field.Some? && field.value.1 != "" && field.value.1[0] == ',' {
      ReadRecordShrinks(field.value.1[1..]);
    }
  }

  /** Records separated by line feeds, up to the end of the text. */
  function Read(s: string): Option<seq<seq<string>>>
    decreases |s|
  {
    ReadRecordShrinks(s);
    var record := ReadRecord(s);
    if record.None? then None
    else
      var rest := record.value.1;
      if rest == "" then Some([record.value.0])
      else if rest[0] != '\n' then None
      else
        var more := Read(rest[1..]);
        if more.None? then None else Some([record.value.0] + more.value)
  }

  /** What may follow a field: nothing, a comma or a line feed. */
  predicate Ends(rest: string) {
    rest == "" || rest[0] == ',' || rest[0] == '\n'
  }

  lemma {:induction false} ReadsQuoted(s: string, rest: string)
    requires Ends(rest)
    ensures ReadQuoted(DoubleQuotes(s) + "\"" + rest) == Some((s, rest))
  {
    var text := DoubleQuotes(s) + "\"" + rest;
    if s == "" {
      assert text == "\"" + rest;
    } else {
      var tail := DoubleQuotes(s[1..]) + "\"" + rest;
      ReadsQuoted(s[1..], rest);
      assert s == [s[0]] + s[1..];
      if s[0] == '"' {
        assert text == "\"\"" + tail && text[2..] == tail;
      } else {
        assert text == [s[0]] + tail && text[1..] == tail;
      }
    }
  }

  lemma {:induction false} ReadsPlain(s: string, rest: string)
    requires Ends(rest) && forall i :: 0 <= i < |s| ==> !Special(s[i])
    ensures DoubleQuotes(s) == s && ReadPlain(s + rest) == (s, rest)
  {
    if s == "" {
      assert s + rest == rest;
    } else {
      ReadsPlain(s[1..], rest);
      assert s == [s[0]] + s[1..];
      assert (s + rest)[1..] == s[1..] + rest;
    }
  }

  /** Reading the escaped text of a field gives the text back. */
  lemma ReadsField(s: string, rest: string)
    requires Ends(rest)
    ensures ReadField(EscapeText(s) + rest) == Some((s, rest))
  {
    if exists i :: 0 <= i < |s| && Special(s[i]) {
      ReadsQuoted(s, rest);
      QuotedText(DoubleQuotes(s), rest);
    } else {
      ReadsPlain(s, rest);
      if s == "" {
        assert EscapeText(s) + rest == rest;
      } else {
        assert (s + rest)[0] == s[0];
      }
    }
  }

  lemma QuotedText(inner: string, rest: string)
    ensures var text := "\"" + inner + "\"" + rest;
            text[0] == '"' && text[1..] == inner + "\"" + rest
  {
  }

  /** The text of a cell is escaped the same whether it is null or shows nothing. */
  function EscapeAll(fields: seq<string>): seq<string> {
    seq(|fields|, i requires 0 <= i < |fields| => EscapeText(fields[i]))
  }

  function ShownAll(cells: seq<Cell>): seq<string> {
    seq(|cells|, i requires 0 <= i < |cells| => Shown(cells[i]))
  }

  lemma LineShows(cells: seq<Cell>)
    ensures Line(cells) == Join(EscapeAll(ShownAll(cells)), ',')
  {
    assert seq(|cells|, i requires 0 <= i < |cells| => Escape(cells[i])) == EscapeAll(ShownAll(cells));
  }

  lemma JoinCons(parts: seq<string>, separator: char, rest: string)
    requires |parts| > 1
    ensures Join(parts, separator) + rest == parts[0] + ([separator] + (Join(parts[1..], separator) + rest))
  {
  }

  lemma ReadLastField(s: string, field: string, rest: string)
    requires ReadField(s) == Some((field, rest)) && (rest == "" || rest[0] == '\n')
    ensures ReadRecord(s) == Some(([field], rest))
  {
  }

  lemma ReadNextField(s: string, field: string, tail: string, more: seq<string>, rest: string)
    requires ReadField(s) == Some((field, [','] + tail)) && ReadRecord(tail) == Some((more, rest))
    ensures ReadRecord(s) == Some(([field] + more, rest))
  {
    assert ([','] + tail)[1..] == tail;
    ReadFieldShrinks(s);
  }

  /** Reading a joined record gives its fields back and stops at the line feed or the end. */
  lemma {:induction false} ReadsRecord(fields: seq<string>, rest: string)
    requires fields != [] && (rest == "" || rest[0] == '\n')
    ensures ReadRecord(Join(EscapeAll(fields), ',') + rest) == Some((fields, rest))
  {
    var texts := EscapeAll(fields);
    if |fields| == 1 {
      ReadsField(fields[0], rest);
      ReadLastField(EscapeText(fields[0]) + rest, fields[0], rest);
      assert fields == [fields[0]];
    } else {
      assert EscapeAll(fields[1..]) == texts[1..];
      var tail := Join(texts[1..], ',') + rest;
      JoinCons(texts, ',', rest);
      ReadsField(fields[0], [','] + tail);
      ReadsRecord(fields[1..], rest);
      ReadNextField(Join(texts, ',') + rest, fields[0], tail, fields[1..], rest);
      assert fields == [fields[0]] + fields[1..];
    }
  }

  function RecordLines(records: seq<seq<string>>): seq<string> {
    seq(|records|, i requires 0 <= i < |records| => Join(EscapeAll(records[i]), ','))
  }

  /** Reading joined records gives them back. */
  lemma {:induction false} ReadsRecords(records: seq<seq<string>>)
    requires records != [] && forall i :: 0 <= i < |records| ==> records[i] != []
    ensures Read(Join(RecordLines(records), '\n')) == Some(records)
  {
    if |records| == 1 {
      ReadsRecord(records[0], "");
      assert records == [records[0]];
      assert Join(RecordLines(records), '\n') == Join(EscapeAll(records[0]), ',') + "";
      ReadLast(Join(RecordLines(records), '\n'), records[0]);
    } else {
      var rest := records[1..];
      ReadsRecords(rest);
      assert records == [records[0]] + rest;
      ReadsOneMore(records[0], rest);
    }
  }

  lemma ReadsOneMore(record: seq<string>, rest: seq<seq<string>>)
    requires record != [] && rest != []
    requires Read(Join(RecordLines(rest), '\n')) == Some(rest)
    ensures Read(Join(RecordLines([record] + rest), '\n')) == Some([record] + rest)
  {
    var tail := Join(RecordLines(rest), '\n');
    var lines := RecordLines([record] + rest);
    assert lines[1..] == RecordLines(rest);
    assert lines[0] == Join(EscapeAll(record), ',');
    JoinMore(lines, '\n');
    ReadsRecord(record, ['\n'] + tail);
    ReadMore(lines[0] + (['\n'] + tail), record, tail, rest);
  }

  lemma JoinMore(parts: seq<string>, separator: char)
    requires |parts| > 1
    ensures Join(parts, separator) == parts[0] + ([separator] + Join(parts[1..], separator))
  {
  }

  lemma ReadLast(s: string, record: seq<string>)
    requires ReadRecord(s) == Some((record, ""))
    ensures Read(s) == Some([record])
  {
  }

  lemma ReadMore(s: string, record: seq<string>, tail: string, more: seq<seq<string>>)
    requires ReadRecord(s) == Some((record, ['\n'] + tail)) && Read(tail) == Some(more)
    ensures Read(s) == Some([record] + more)
  {
    var rest := ['\n'] + tail;
    assert rest != "" && rest[0] == '\n' && rest[1..] == tail;
  }

  /** The table a list of rows stands for: its headers, and the text of every cell. */
  function TableOf(rows: seq<Row>): seq<seq<string>> {
    var records := RecordsOf(rows);
    seq(|records|, i requires 0 <= i < |records| => ShownAll(records[i]))
  }

  lemma TableText(rows: seq<Row>)
    requires rows != []
    ensures ToCsv(rows) == Join(RecordLines(TableOf(rows)), '\n')
  {
    var records := RecordsOf(rows);
    forall i | 0 <= i < |records| ensures Lines(records)[i] == RecordLines(TableOf(rows))[i] {
      LineShows(records[i]);
    }
    assert Lines(records) == RecordLines(TableOf(rows));
  }

  lemma {:induction false} ReadHasFields(s: string)
    ensures Read(s).Some? ==> Read(s).value != [] && Read(s).value[0] != []
    decreases |s|
  {
  }

  /** Reading what was printed recovers the table exactly when the rows have at least one key. */
  lemma RoundTripIff(rows: seq<Row>)
    ensures Read(ToCsv(rows)) == Some(TableOf(rows)) <==> HeadersOf(rows) != []
  {
    if HeadersOf(rows) != [] {
      TableText(rows);
      ReadsRecords(TableOf(rows));
    } else {
      ReadHasFields(ToCsv(rows));
      assert TableOf(rows)[0] == [];
    }
  }

  /** So two lists of rows with at least one key each print alike only if their tables are the same. */
  lemma PrintingIsInjective(a: seq<Row>, b: seq<Row>)
    requires HeadersOf(a) != [] && HeadersOf(b) != [] && ToCsv(a) == ToCsv(b)
    ensures TableOf(a) == TableOf(b)
  {
    RoundTripIff(a);
    RoundTripIff(b);
  }

  /** All keys as they are met, row by row. */
  function KeyStream(rows: seq<Row>): seq<string> {
    if rows == [] then [] else KeyStream(rows[..|rows| - 1]) + KeysOf(rows[|rows| - 1])
  }

  /** Where a key first appears; the length if it does not. */
  function FirstIndex(keys: seq<string>, k: string): (i: nat)
    ensures i <= |keys|
  {
    if keys == [] || keys[0] == k then 0 else 1 + FirstIndex(keys[1..], k)
  }

  lemma {:induction false} AddKeysMore(headers: seq<string>, a: seq<string>, b: seq<string>)
    ensures AddKeys(AddKeys(headers, a), b) == AddKeys(headers, a + b)
    decreases |a|
  {
    if a == [] {
      assert a + b == b;
    } else {
      AddKeysMore(AddKey(headers, a[0]), a[1..], b);
      assert (a + b)[1..] == a[1..] + b;
    }
  }

  lemma {:induction false} HeadersAreStreamed(rows: seq<Row>)
    ensures HeadersOf(rows) == AddKeys([], KeyStream(rows))
    decreases |rows|
  {
    if rows != [] {
      HeadersAreStreamed(rows[..|rows| - 1]);
      AddKeysMore([], KeyStream(rows[..|rows| - 1]), KeysOf(rows[|rows| - 1]));
    }
  }

  lemma {:induction false} FirstIndexFinds(keys: seq<string>, k: string)
    ensures FirstIndex(keys, k) < |keys| <==> k in keys
  {
    if keys != [] {
      assert keys == [keys[0]] + keys[1..];
      FirstIndexFinds(keys[1..], k);
    }
  }

  lemma {:induction false} FirstIndexSnoc(keys: seq<string>, x: string, k: string)
    ensures FirstIndex(keys + [x], k) == if k !in keys && k != x then |keys| + 1 else FirstIndex(keys, k)
  {
    if keys != [] {
      assert keys == [keys[0]] + keys[1..];
      assert (keys + [x])[1..] == keys[1..] + [x];
      FirstIndexSnoc(keys[1..], x, k);
    }
  }

  /** These are keys of the stream, in order of first appearance; so none occurs twice. */
  predicate InOrder(headers: seq<string>, keys: seq<string>) {
    && (forall i, j :: 0 <= i < j < |headers| ==> FirstIndex(keys, headers[i]) < FirstIndex(keys, headers[j]))
    && (forall i :: 0 <= i < |headers| ==> headers[i] in keys)
  }

  lemma OneMoreKey(headers: seq<string>, keys: seq<string>, x: string)
    requires InOrder(headers, keys) && (x in headers <==> x in keys)
    ensures InOrder(AddKey(headers, x), keys + [x])
  {
    var next := AddKey(headers, x);
    forall i | 0 <= i < |next|
      ensures FirstIndex(keys + [x], next[i]) == FirstIndex(keys, next[i])
      ensures i < |headers| ==> FirstIndex(keys, next[i]) < |keys|
      ensures i == |headers| ==> FirstIndex(keys, next[i]) == |keys|
    {
      FirstIndexSnoc(keys, x, next[i]);
      FirstIndexFinds(keys, next[i]);
    }
  }

  lemma {:induction false} StreamInOrder(keys: seq<string>)
    ensures InOrder(AddKeys([], keys), keys)
    ensures forall k :: k in AddKeys([], keys) <==> k in keys
  {
    if keys != [] {
      var front, last := keys[..|keys| - 1], keys[|keys| - 1];
      assert keys == front + [last];
      StreamInOrder(front);
      AddKeysMore([], front, [last]);
      OneMoreKey(AddKeys([], front), front, last);
    }
  }

  /** The headers are exactly the keys of the rows, in order of first appearance, each once. */
  lemma HeadersInOrder(rows: seq<Row>)
    ensures InOrder(HeadersOf(rows), KeyStream(rows))
    ensures forall k :: k in HeadersOf(rows) <==> k in KeyStream(rows)
  {
    HeadersAreStreamed(rows);
    StreamInOrder(KeyStream(rows));
  }
}
