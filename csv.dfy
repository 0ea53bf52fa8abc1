/** `contactsToCSV` (app/page.tsx:109-138): a header line and one line per contact, every
    field in double quotes with its own double quotes doubled, fields joined by ',' and lines
    by '\n'. */
module Csv {
  import opened Text
  import opened Options
  import opened Contacts

  const Quote: char := '"'

  /** The header row. */
  const Header: seq<string> := ["nama", "jabatan", "phone", "email", "url"]

  /** The fields of a record in column order. */
  function Fields(c: Contact): (row: seq<string>)
    ensures |row| == |Header|
  {
    [c.name, c.title, c.phone, c.email, c.url]
  }

  /** The number of double quotes in `v`. */
  function QuoteCount(v: string): nat {
    if v == [] then 0 else (if v[0] == Quote then 1 else 0) + QuoteCount(v[1..])
  }

  /** `value.replace(/"/g, '""')`. */
  function DoubleQuotes(v: string): string {
    if v == [] then []
    else (if v[0] == Quote then [Quote, Quote] else [v[0]]) + DoubleQuotes(v[1..])
  }

  /** `escape`: the value, its double quotes doubled, between double quotes. */
  function Escape(v: string): (r: string)
    ensures |r| >= 2 && r[0] == Quote && r[|r| - 1] == Quote
  {
    [Quote] + DoubleQuotes(v) + [Quote]
  }

  /** `row.map(escape)`. */
  function EscapeAll(row: seq<string>): (r: seq<string>)
    ensures |r| == |row|
  {
    seq(|row|, i requires 0 <= i < |row| => Escape(row[i]))
  }

  /** `row.map(escape).join(",")`. */
  function EncodeRow(row: seq<string>): string {
    Join(EscapeAll(row), ',')
  }

  /** The rows of some records. */
  function FieldRows(contacts: seq<Contact>): (rows: seq<seq<string>>)
    ensures |rows| == |contacts|
  {
    seq(|contacts|, i requires 0 <= i < |contacts| => Fields(contacts[i]))
  }

  /** The encoded lines of some rows. */
  function EncodeRows(rows: seq<seq<string>>): (lines: seq<string>)
    ensures |lines| == |rows|
  {
    seq(|rows|, i requires 0 <= i < |rows| => EncodeRow(rows[i]))
  }

  /** The lines of the file: the header line, then one line per record. */
  function CsvLines(contacts: seq<Contact>): (lines: seq<string>)
    ensures |lines| == |contacts| + 1
  {
    [EncodeRow(Header)] + EncodeRows(FieldRows(contacts))
  }

  /** `contactsToCSV`. */
  function ContactsToCsv(contacts: seq<Contact>): string {
    Join(CsvLines(contacts), '\n')
  }

  /** Reading a quoted field after its opening quote: a doubled quote stands for one quote, a
      lone quote closes the field. Answers the value and the text after the closing quote. */
  function ReadBody(s: string): (r: Option<(string, string)>)
    ensures r.Some? ==> |r.value.1| < |s|
  {
    if s == [] then None
    else if s[0] == Quote then
      if |s| >= 2 && s[1] == Quote then
        match ReadBody(s[2..])
        case Some((v, rest)) => Some(([Quote] + v, rest))
        case None => None
      else Some(([], s[1..]))
    else
      match ReadBody(s[1..])
      case Some((v, rest)) => Some(([s[0]] + v, rest))
      case None => None
  }

  /** Reading one quoted field. */
  function ReadField(s: string): (r: Option<(string, string)>)
    ensures r.Some? ==> |r.value.1| < |s|
  {
    if s != [] && s[0] == Quote then ReadBody(s[1..]) else None
  }

  /** Reading the fields of one line, separated by ','. */
  function ReadRow(s: string): (r: Option<(seq<string>, string)>)
    ensures r.Some? ==> |r.value.0| >= 1 && |r.value.1| < |s|
    decreases |s|
  {
    match ReadField(s)
    case None => None
    case Some((f, rest)) =>
      if rest != [] && rest[0] == ',' then
        match ReadRow(rest[1..])
        case Some((fs, rest')) => Some(([f] + fs, rest'))
        case None => None
      else Some(([f], rest))
  }

  /** Reading all lines, separated by '\n'. */
  function ReadRows(s: string): (r: Option<seq<seq<string>>>)
    ensures r.Some? ==> |r.value| >= 1
    decreases |s|
  {
    match ReadRow(s)
    case None => None
    case Some((fs, rest)) =>
      if rest == [] then Some([fs])
      else if rest[0] == '\n' then
        match ReadRows(rest[1..])
        case Some(rows) => Some([fs] + rows)
        case None => None
      else None
  }

  /** The records of rows of five fields each. */
  function ToContacts(rows: seq<seq<string>>): Option<seq<Contact>> {
    if rows == [] then Some([])
    else if |rows[0]| != |Header| then None
    else
      match ToContacts(rows[1..])
      case Some(cs) => Some([Contact(rows[0][0], rows[0][1], rows[0][2], rows[0][3], rows[0][4])] + cs)
      case None => None
  }

  /** A reader for the files `contactsToCSV` writes: the header line, then the records. */
  function DecodeContacts(csv: string): Option<seq<Contact>> {
    match ReadRows(csv)
    case None => None
    case Some(rows) => if rows[0] == Header then ToContacts(rows[1..]) else None
  }

  /** An escaped value is two characters longer than the value, plus one per double quote. */
  lemma {:induction false} EscapeLength(v: string)
    ensures |Escape(v)| == |v| + 2 + QuoteCount(v)
  {
    DoubleQuotesLength(v);
  }

  lemma {:induction false} DoubleQuotesLength(v: string)
    ensures |DoubleQuotes(v)| == |v| + QuoteCount(v)
    decreases |v|
  {
    if v != [] {
      DoubleQuotesLength(v[1..]);
    }
  }

  /** Escaping leaves a value without double quotes unchanged between the quotes. */
  lemma {:induction false} DoubleQuotesNoQuote(v: string)
    requires Quote !in v
    ensures DoubleQuotes(v) == v
    decreases |v|
  {
    if v != [] {
      assert Quote !in v[1..] by {
        forall k | 0 <= k < |v[1..]| ensures v[1..][k] != Quote {
          assert v[1..][k] == v[k + 1];
        }
      }
      DoubleQuotesNoQuote(v[1..]);
      assert v == [v[0]] + v[1..];
    }
  }

  /** The reader undoes the doubling of quotes and stops at the closing quote. */
  lemma {:induction false} ReadBodyDoubleQuotes(v: string, rest: string)
    requires rest == [] || rest[0] != Quote
    ensures ReadBody(DoubleQuotes(v) + [Quote] + rest) == Some((v, rest))
    decreases |v|
  {
    var s := DoubleQuotes(v) + [Quote] + rest;
    if v == [] {
      assert s == [Quote] + rest;
      assert s[1..] == rest;
    } else {
      ReadBodyDoubleQuotes(v[1..], rest);
      var tail := DoubleQuotes(v[1..]) + [Quote] + rest;
      if v[0] == Quote {
        assert s == [Quote, Quote] + tail;
        assert s[2..] == tail;
      } else {
        assert s == [v[0]] + tail;
        assert s[1..] == tail;
      }
      assert v == [v[0]] + v[1..];
    }
  }

  /** Reading an escaped field gives back the value. */
  lemma ReadFieldEscape(v: string, rest: string)
    requires rest == [] || rest[0] != Quote
    ensures ReadField(Escape(v) + rest) == Some((v, rest))
  {
    var s := Escape(v) + rest;
    assert s[1..] == DoubleQuotes(v) + [Quote] + rest;
    ReadBodyDoubleQuotes(v, rest);
  }

  lemma EscapeAllTail(row: seq<string>)
    requires |row| >= 1
    ensures EscapeAll(row)[0] == Escape(row[0])
    ensures EscapeAll(row)[1..] == EscapeAll(row[1..])
  {
  }

  /** Reading an encoded line gives back its fields, and leaves the text after the line. */
  lemma {:induction false} ReadRowEncode(row: seq<string>, rest: string)
    requires |row| >= 1
    requires rest == [] || rest[0] == '\n'
    ensures ReadRow(EncodeRow(row) + rest) == Some((row, rest))
    decreases |row|
  {
    EscapeAllTail(row);
    var s := EncodeRow(row) + rest;
    if |row| == 1 {
      assert EncodeRow(row) == Escape(row[0]);
      ReadFieldEscape(row[0], rest);
      assert row == [row[0]];
    } else {
      var tail := EncodeRow(row[1..]) + rest;
      assert EncodeRow(row) == Escape(row[0]) + [','] + EncodeRow(row[1..]);
      assert s == Escape(row[0]) + ([','] + tail);
      ReadFieldEscape(row[0], [','] + tail);
      assert ([','] + tail)[1..] == tail;
      ReadRowEncode(row[1..], rest);
      assert row == [row[0]] + row[1..];
    }
  }

  /** Reading the lines back gives the rows. */
  lemma {:induction false} ReadRowsEncode(rows: seq<seq<string>>)
    requires |rows| >= 1
    requires forall k :: 0 <= k < |rows| ==> |rows[k]| >= 1
    ensures ReadRows(Join(EncodeRows(rows), '\n')) == Some(rows)
    decreases |rows|
  {
    var lines := EncodeRows(rows);
    var s := Join(lines, '\n');
    if |rows| == 1 {
      assert s == EncodeRow(rows[0]) + [];
      ReadRowEncode(rows[0], []);
      assert rows == [rows[0]];
    } else {
      assert lines[1..] == EncodeRows(rows[1..]);
      var tail := Join(lines[1..], '\n');
      assert s == EncodeRow(rows[0]) + (['\n'] + tail);
      ReadRowEncode(rows[0], ['\n'] + tail);
      assert (['\n'] + tail)[1..] == tail;
      ReadRowsEncode(rows[1..]);
      assert rows == [rows[0]] + rows[1..];
    }
  }

  lemma {:induction false} ToContactsFields(contacts: seq<Contact>)
    ensures ToContacts(FieldRows(contacts)) == Some(contacts)
    decreases |contacts|
  {
    if contacts != [] {
      assert FieldRows(contacts)[1..] == FieldRows(contacts[1..]);
      ToContactsFields(contacts[1..]);
      assert contacts == [contacts[0]] + contacts[1..];
    }
  }

  lemma CsvLinesRows(contacts: seq<Contact>)
    ensures CsvLines(contacts) == EncodeRows([Header] + FieldRows(contacts))
  {
    var rows := [Header] + FieldRows(contacts);
    assert EncodeRows(rows)[1..] == EncodeRows(FieldRows(contacts));
  }

  /** Round trip: the reader gives back exactly the records written, in order, whatever
      characters (quotes, commas, line feeds) their fields hold. */
  lemma CsvRoundTrip(contacts: seq<Contact>)
    ensures DecodeContacts(ContactsToCsv(contacts)) == Some(contacts)
  {
    var rows := [Header] + FieldRows(contacts);
    CsvLinesRows(contacts);
    forall k | 0 <= k < |rows| ensures |rows[k]| >= 1 {
      if k > 0 {
        assert rows[k] == FieldRows(contacts)[k - 1];
      }
    }
    ReadRowsEncode(rows);
    DropHead(Header, FieldRows(contacts));
    ToContactsFields(contacts);
  }

  lemma DropHead<T>(x: T, rest: seq<T>)
    ensures ([x] + rest)[1..] == rest && ([x] + rest)[0] == x
  {
  }

  lemma EscapePlain(v: string)
    requires Quote !in v
    ensures Escape(v) == [Quote] + v + [Quote]
  {
    DoubleQuotesNoQuote(v);
  }

  /** The header cell at index `i`, which holds no double quote, between double quotes. */
  lemma HeaderCell(i: nat)
    requires i < |Header|
    ensures EscapeAll(Header)[i] == [Quote] + Header[i] + [Quote]
  {
    assert Quote !in Header[i];
    EscapePlain(Header[i]);
  }

  lemma HeaderEscaped()
    ensures EscapeAll(Header) == ["\"nama\"", "\"jabatan\"", "\"phone\"", "\"email\"", "\"url\""]
  {
    HeaderCellNama();
    HeaderCellJabatan();
    HeaderCellPhone();
    HeaderCellEmail();
    HeaderCellUrl();
  }

  lemma HeaderCellNama()
    ensures EscapeAll(Header)[0] == "\"nama\""
  {
    HeaderCell(0);
  }

  lemma HeaderCellJabatan()
    ensures EscapeAll(Header)[1] == "\"jabatan\""
  {
    HeaderCell(1);
  }

  lemma HeaderCellPhone()
    ensures EscapeAll(Header)[2] == "\"phone\""
  {
    HeaderCell(2);
  }

  lemma HeaderCellEmail()
    ensures EscapeAll(Header)[3] == "\"email\""
  {
    HeaderCell(3);
  }

  lemma HeaderCellUrl()
    ensures EscapeAll(Header)[4] == "\"url\""
  {
    HeaderCell(4);
  }

  /** With no records the file is the header line alone: the five column names, each in
      double quotes, separated by ','. */
  lemma EmptyIsHeaderLine()
    ensures ContactsToCsv([]) == "\"nama\",\"jabatan\",\"phone\",\"email\",\"url\""
  {
    EmptyIsHeaderCells();
    HeaderJoin();
    HeaderLiteral();
  }

  /** The join of the five quoted column names, one separator between each two. */
  lemma HeaderJoin()
    ensures Join(["\"nama\"", "\"jabatan\"", "\"phone\"", "\"email\"", "\"url\""], ',')
      == "\"nama\"" + "," + "\"jabatan\"" + "," + "\"phone\"" + "," + "\"email\"" + "," + "\"url\""
  {
    var n, j, p, e, u := "\"nama\"", "\"jabatan\"", "\"phone\"", "\"email\"", "\"url\"";
    assert [n, j, p, e, u][1..] == [j, p, e, u];
    assert [j, p, e, u][1..] == [p, e, u];
    assert [p, e, u][1..] == [e, u];
    assert [e, u][1..] == [u];
  }

  /** The separated column names as one string. */
  lemma HeaderLiteral()
    ensures "\"nama\"" + "," + "\"jabatan\"" + "," + "\"phone\"" + "," + "\"email\"" + "," + "\"url\""
      == "\"nama\",\"jabatan\",\"phone\",\"email\",\"url\""
  {
  }

  /** With no records the file is the join of the five quoted column names. */
  lemma EmptyIsHeaderCells()
    ensures ContactsToCsv([]) == Join(["\"nama\"", "\"jabatan\"", "\"phone\"", "\"email\"", "\"url\""], ',')
  {
    HeaderEscaped();
    assert CsvLines([]) == [EncodeRow(Header)];
  }

  /** A further record adds one line at the end and changes nothing before it. */
  lemma ContactsToCsvAppend(contacts: seq<Contact>, c: Contact)
    ensures ContactsToCsv(contacts + [c]) == ContactsToCsv(contacts) + ['\n'] + EncodeRow(Fields(c))
  {
    CsvLinesAppend(contacts, c);
    JoinAppend(CsvLines(contacts), EncodeRow(Fields(c)), '\n');
  }

  lemma CsvLinesAppend(contacts: seq<Contact>, c: Contact)
    ensures CsvLines(contacts + [c]) == CsvLines(contacts) + [EncodeRow(Fields(c))]
  {
    var rows, rows' := EncodeRows(FieldRows(contacts)), EncodeRows(FieldRows(contacts + [c]));
    assert rows' == rows + [EncodeRow(Fields(c))];
  }
}
