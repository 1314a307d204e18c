/** What the printed text shows of the rows themselves: every cell under its own key, and the keys in the order they are met. */
module CsvCells {
  import opened Options
  import opened Csv

  /** A row is an object: no key occurs twice. */
  predicate KeysOnce(row: Row) {
    forall a, b :: 0 <= a < b < |row| ==> row[a].0 != row[b].0
  }

  /** The text is what the cell shows: nothing for null, else the text of its value. */
  predicate ShowsCell(text: string, c: Cell) {
    match c
    case Empty => text == ""
    case Text(s) => text == s
  }

  /** The text is that of the row's cell of that key, or empty when the row has none. */
  ghost predicate ShowsKey(text: string, row: Row, key: string) {
    && (forall c :: (key, c) in row ==> ShowsCell(text, c))
    && ((forall c :: (key, c) !in row) ==> text == "")
  }

  lemma {:induction false} LookupFinds(row: Row, key: string)
    ensures (key, Lookup(row, key)) in row || (Lookup(row, key) == Empty && forall c :: (key, c) !in row)
  {
    if row != [] {
      LookupFinds(row[..|row| - 1], key);
      assert row == row[..|row| - 1] + [row[|row| - 1]];
    }
  }

  lemma OneCell(row: Row, key: string, c: Cell, d: Cell)
    requires KeysOnce(row) && (key, c) in row && (key, d) in row
    ensures c == d
  {
    var a :| 0 <= a < |row| && row[a] == (key, c);
    var b :| 0 <= b < |row| && row[b] == (key, d);
    assert a <= b || b <= a;
  }

  lemma LookupShows(row: Row, key: string)
    requires KeysOnce(row)
    ensures ShowsKey(Shown(Lookup(row, key)), row, key)
  {
    LookupFinds(row, key);
    forall c | (key, c) in row ensures ShowsCell(Shown(Lookup(row, key)), c) {
      OneCell(row, key, c, Lookup(row, key));
    }
  }

  /** A key of some row. */
  ghost predicate HasKey(rows: seq<Row>, key: string) {
    exists r: nat, a: nat :: r < |rows| && a < |rows[r]| && rows[r][a].0 == key
  }

  /** Some occurrence of a key is met before every occurrence of another, row by row and within rows. */
  ghost predicate MetBefore(rows: seq<Row>, k: string, l: string) {
    exists r: nat, a: nat ::
      && r < |rows| && a < |rows[r]| && rows[r][a].0 == k
      && AllLater(rows, r, a, l)
  }

  ghost predicate AllLater(rows: seq<Row>, r: nat, a: nat, l: string) {
    forall s: nat, b: nat :: s < |rows| && b < |rows[s]| && rows[s][b].0 == l ==> r < s || (r == s && a < b)
  }

  /** The place of a row's first key in the stream of keys. */
  function Offset(rows: seq<Row>, r: nat): nat
    requires r <= |rows|
  {
    |KeyStream(rows[..r])|
  }

  lemma StreamNext(rows: seq<Row>, r: nat)
    requires r < |rows|
    ensures KeyStream(rows[..r + 1]) == KeyStream(rows[..r]) + KeysOf(rows[r])
    ensures Offset(rows, r + 1) == Offset(rows, r) + |rows[r]|
  {
    assert rows[..r + 1][..r] == rows[..r];
  }

  lemma {:induction false} StreamStarts(rows: seq<Row>, r: nat, s: nat)
    requires r <= s <= |rows|
    ensures KeyStream(rows[..r]) <= KeyStream(rows[..s])
    decreases s
  {
    if r < s {
      StreamStarts(rows, r, s - 1);
      StreamNext(rows, s - 1);
    }
  }

  lemma KeyAt(rows: seq<Row>, r: nat, a: nat)
    requires r < |rows| && a < |rows[r]|
    ensures Offset(rows, r) + a < |KeyStream(rows)| && KeyStream(rows)[Offset(rows, r) + a] == rows[r][a].0
  {
    StreamNext(rows, r);
    StreamStarts(rows, r + 1, |rows|);
    assert rows[..|rows|] == rows;
    assert KeyStream(rows[..r + 1])[Offset(rows, r) + a] == KeysOf(rows[r])[a];
  }

  lemma {:induction false} PlaceOf(rows: seq<Row>, n: nat, i: nat) returns (r: nat, a: nat)
    requires n <= |rows| && i < Offset(rows, n)
    ensures r < n && a < |rows[r]| && Offset(rows, r) + a == i
    decreases n
  {
    StreamNext(rows, n - 1);
    if i < Offset(rows, n - 1) {
      r, a := PlaceOf(rows, n - 1, i);
    } else {
      r, a := n - 1, i - Offset(rows, n - 1);
    }
  }

  lemma EarlierPlace(rows: seq<Row>, r: nat, a: nat, s: nat, b: nat)
    requires r < |rows| && a < |rows[r]| && s < |rows| && b < |rows[s]|
    requires Offset(rows, r) + a < Offset(rows, s) + b
    ensures r < s || (r == s && a < b)
  {
    if s < r {
      StreamNext(rows, s);
      StreamStarts(rows, s + 1, r);
    }
  }

  lemma {:induction false} FirstIndexIsFirst(keys: seq<string>, k: string)
    ensures FirstIndex(keys, k) < |keys| ==> keys[FirstIndex(keys, k)] == k
    ensures forall i :: 0 <= i < |keys| && keys[i] == k ==> FirstIndex(keys, k) <= i
  {
    if keys != [] && keys[0] != k {
      FirstIndexIsFirst(keys[1..], k);
      assert forall i :: 0 < i < |keys| ==> keys[i] == keys[1..][i - 1];
    }
  }

  lemma StreamOrderIsRowOrder(rows: seq<Row>, k: string, l: string)
    requires var keys := KeyStream(rows); FirstIndex(keys, k) < |keys| && FirstIndex(keys, k) < FirstIndex(keys, l)
    ensures MetBefore(rows, k, l)
  {
    var keys := KeyStream(rows);
    FirstIndexIsFirst(keys, k);
    FirstIndexIsFirst(keys, l);
    assert rows[..|rows|] == rows;
    var r, a := PlaceOf(rows, |rows|, FirstIndex(keys, k));
    KeyAt(rows, r, a);
    forall s: nat, b: nat | s < |rows| && b < |rows[s]| && rows[s][b].0 == l ensures r < s || (r == s && a < b) {
      KeyAt(rows, s, b);
      EarlierPlace(rows, r, a, s, b);
    }
    assert AllLater(rows, r, a, l);
  }

  lemma StreamHasKey(rows: seq<Row>, k: string)
    ensures k in KeyStream(rows) <==> HasKey(rows, k)
  {
    var keys := KeyStream(rows);
    assert rows[..|rows|] == rows;
    if k in keys {
      var i: nat :| i < |keys| && keys[i] == k;
      var r, a := PlaceOf(rows, |rows|, i);
      KeyAt(rows, r, a);
    }
    if r: nat, a: nat :| r < |rows| && a < |rows[r]| && rows[r][a].0 == k {
      KeyAt(rows, r, a);
    }
  }

  /** The first record: all keys of the rows, each where it is first met. */
  ghost predicate IsHeader(header: seq<string>, rows: seq<Row>) {
    && (forall k :: k in header <==> HasKey(rows, k))
    && (forall i, j :: 0 <= i < j < |header| ==> MetBefore(rows, header[i], header[j]))
  }

  lemma HeadersAreHeader(rows: seq<Row>)
    ensures IsHeader(HeadersOf(rows), rows)
  {
    var header, keys := HeadersOf(rows), KeyStream(rows);
    HeadersInOrder(rows);
    forall k ensures k in header <==> HasKey(rows, k) {
      StreamHasKey(rows, k);
    }
    forall i, j | 0 <= i < j < |header| ensures MetBefore(rows, header[i], header[j]) {
      FirstIndexFinds(keys, header[i]);
      StreamOrderIsRowOrder(rows, header[i], header[j]);
    }
  }

  /** Record i + 1: under every header the row's own cell of that key. */
  ghost predicate IsRecord(record: seq<string>, row: Row, header: seq<string>) {
    |record| == |header| && forall j :: 0 <= j < |header| ==> ShowsKey(record[j], row, header[j])
  }

  lemma RecordShows(row: Row, header: seq<string>)
    requires KeysOnce(row)
    ensures IsRecord(ShownAll(CellsOf(row, header)), row, header)
  {
    forall j | 0 <= j < |header| ensures ShowsKey(ShownAll(CellsOf(row, header))[j], row, header[j]) {
      LookupShows(row, header[j]);
    }
  }

  /**
   Reading what was printed gives one record of headers, all keys of the rows in the order they are met,
   and then one record for each row in order, with the row's own cell under every header.
   */
  lemma CellsComeBack(rows: seq<Row>, key: string) returns (table: seq<seq<string>>)
    requires HasKey(rows, key) && forall i :: 0 <= i < |rows| ==> KeysOnce(rows[i])
    ensures Read(ToCsv(rows)) == Some(table) && |table| == |rows| + 1
    ensures IsHeader(table[0], rows)
    ensures forall i :: 0 <= i < |rows| ==> IsRecord(table[i + 1], rows[i], table[0])
  {
    table := TableOf(rows);
    HeadersAreHeader(rows);
    RoundTripIff(rows);
    HeaderRecord(rows);
    forall i | 0 <= i < |rows| ensures IsRecord(table[i + 1], rows[i], table[0]) {
      RecordShows(rows[i], HeadersOf(rows));
      assert RecordsOf(rows)[i + 1] == CellsOf(rows[i], HeadersOf(rows));
    }
  }

  lemma HeaderRecord(rows: seq<Row>)
    ensures TableOf(rows) != [] && TableOf(rows)[0] == HeadersOf(rows)
  {
    var headers := HeadersOf(rows);
    assert RecordsOf(rows)[0] == seq(|headers|, i requires 0 <= i < |headers| => Text(headers[i]));
  }

  /** A field is quoted exactly when it holds a quote, a comma or a line break; otherwise it is printed as it is. */
  lemma QuotedOnlyIfNeeded(s: string)
    ensures (forall i :: 0 <= i < |s| ==> s[i] !in {'"', ',', '\n', '\r'}) ==> Escape(Text(s)) == s
    ensures (exists i :: 0 <= i < |s| && s[i] in {'"', ',', '\n', '\r'}) ==>
              |Escape(Text(s))| >= 2 && Escape(Text(s))[0] == '"' == Escape(Text(s))[|Escape(Text(s))| - 1]
    ensures Escape(Empty) == ""
  {
    if forall i :: 0 <= i < |s| ==> s[i] !in {'"', ',', '\n', '\r'} {
      ReadsPlain(s, "");
    }
  }

  function LineFeeds(n: nat): string {
    if n == 0 then "" else "\n" + LineFeeds(n - 1)
  }

  lemma {:induction false} JoinedBlanks(lines: seq<string>)
    requires lines != [] && forall i :: 0 <= i < |lines| ==> lines[i] == ""
    ensures Join(lines, '\n') == LineFeeds(|lines| - 1)
  {
    if |lines| > 1 {
      JoinedBlanks(lines[1..]);
    }
  }

  lemma SomeMember(keys: seq<string>)
    ensures keys != [] ==> exists k :: k in keys
  {
    if keys != [] {
      assert keys[0] in keys;
    }
  }

  lemma NoHeaders(rows: seq<Row>)
    requires forall key :: !HasKey(rows, key)
    ensures HeadersOf(rows) == []
  {
    HeadersAreHeader(rows);
    SomeMember(HeadersOf(rows));
  }

  lemma BlankLines(rows: seq<Row>)
    requires HeadersOf(rows) == []
    ensures |Lines(RecordsOf(rows))| == |rows| + 1
    ensures forall i :: 0 <= i < |rows| + 1 ==> Lines(RecordsOf(rows))[i] == ""
  {
    forall i | 0 <= i < |rows| + 1 ensures Lines(RecordsOf(rows))[i] == "" {
      assert RecordsOf(rows)[i] == [];
      assert Line([]) == "";
    }
  }

  /** Rows without any key print as one line feed each, and no rows as nothing. */
  lemma KeylessRows(rows: seq<Row>)
    requires forall key :: !HasKey(rows, key)
    ensures ToCsv(rows) == LineFeeds(|rows|)
  {
    NoHeaders(rows);
    if rows != [] {
      BlankLines(rows);
      JoinedBlanks(Lines(RecordsOf(rows)));
    }
  }
}
