/** The per-run table `devices(id, macaddr UNIQUE, name, devclass, vendor)` as a
    sequence of rows in rowid order, and the text report written from it. */
module Devices {
  import opened Wrappers
  import opened Text
  import opened Sqlite

  datatype Device = Device(macaddr: string, name: string, devclass: string, vendor: string)

  function Addresses(d: seq<Device>): set<string> {
    set k | 0 <= k < |d| :: d[k].macaddr
  }

  /** The UNIQUE constraint on `macaddr`. */
  ghost predicate UniqueAddresses(d: seq<Device>) {
    forall i, j | 0 <= i < j < |d| :: d[i].macaddr != d[j].macaddr
  }

  /** The table after an `INSERT INTO devices`, and the insert's outcome. */
  datatype DeviceInsertion = DeviceInsertion(rows: seq<Device>, outcome: Outcome<DbError>)

  /** `INSERT INTO devices(macaddr, name, devclass, vendor)` on table `d`. A new
      address is appended; a taken one is an IntegrityError that leaves the rows
      as they were. The UNIQUE constraint is kept either way. */
  function InsertDevice(d: seq<Device>, x: Device): (r: DeviceInsertion)
    ensures r.outcome == Pass <==> (forall k | 0 <= k < |d| :: d[k].macaddr != x.macaddr)
    ensures r.outcome != Pass ==> r == DeviceInsertion(d, Fail(IntegrityError))
    ensures r.outcome == Pass ==> r.rows == d + [x]
    ensures UniqueAddresses(d) ==> UniqueAddresses(r.rows)
  {
    if x.macaddr in Addresses(d) then DeviceInsertion(d, Fail(IntegrityError))
    else DeviceInsertion(d + [x], Pass)
  }

  // ---------------------------------------------------------------------------
  // The exported report

  /** `line` starts with `tag`. */
  predicate HasLabel(line: string, tag: string) {
    |tag| <= |line| && line[..|tag|] == tag
  }

  /** The four lines a record is written as. */
  function RecordLines(x: Device): seq<string> {
    ["Mac: " + x.macaddr, "Name: " + x.name, "Class: " + x.devclass, "Vendor: " + x.vendor]
  }

  /** No field of the row contains a line break, so each field stays on its line. */
  predicate OneLineFields(x: Device) {
    '\n' !in x.macaddr && '\n' !in x.name && '\n' !in x.devclass && '\n' !in x.vendor
  }

  /** `"Mac: %s\nName: %s\nClass: %s\nVendor: %s\n" % (row[1], row[2], row[3], row[4])`:
      four labelled lines, the first labelled `Mac: `, each ended by a line
      break. */
  function RecordText(x: Device): (r: string)
    ensures HasLabel(r, "Mac: ") && r[|r| - 1] == '\n'
  {
    "Mac: " + x.macaddr + "\n" + "Name: " + x.name + "\n" + "Class: " + x.devclass + "\n" + "Vendor: " + x.vendor + "\n"
  }

  /** The records of `rows`, in order, with nothing between them: empty exactly
      when there are no rows, and otherwise ended by the last record's line
      break. */
  function Records(rows: seq<Device>): (r: string)
    ensures rows == [] <==> r == []
    ensures r != [] ==> r[|r| - 1] == '\n'
    decreases |rows|
  {
    if rows == [] then "" else RecordText(rows[0]) + Records(rows[1..])
  }

  /** The whole file: every record, then one final `"\n"`. An empty table gives
      just that line break; otherwise the file ends with a blank line (the last
      record's line break and the final one). */
  function Report(rows: seq<Device>): (r: string)
    ensures rows == [] ==> r == "\n"
    ensures rows != [] ==> |r| >= 2 && r[|r| - 2] == '\n' && r[|r| - 1] == '\n'
  {
    Records(rows) + "\n"
  }

  // ---------------------------------------------------------------------------
  // Encoding the report

  /** Why the export stops: the query fails, or a record cannot be encoded. */
  datatype ExportError = QueryError(cause: DbError) | UnicodeEncodeError

  /** Text that Python 2's default `ascii` codec encodes: every character is
      below 128. Writing other text to a file opened with `open` raises
      UnicodeEncodeError, and nothing of that text is written. */
  predicate IsAscii(s: string) {
    forall k | 0 <= k < |s| :: s[k] as int < 128
  }

  lemma IsAsciiConcat(a: string, b: string)
    ensures IsAscii(a + b) <==> IsAscii(a) && IsAscii(b)
  {
    if IsAscii(a + b) {
      forall k | 0 <= k < |a| ensures a[k] as int < 128 {
        assert (a + b)[k] == a[k];
      }
      forall k | 0 <= k < |b| ensures b[k] as int < 128 {
        assert (a + b)[|a| + k] == b[k];
      }
    }
  }

  /** The four fields of the row are ASCII. */
  predicate AsciiFields(x: Device) {
    IsAscii(x.macaddr) && IsAscii(x.name) && IsAscii(x.devclass) && IsAscii(x.vendor)
  }

  /** A labelled line encodes exactly when its value does. */
  lemma LineAscii(tag: string, value: string)
    requires IsAscii(tag)
    ensures IsAscii(tag + value + "\n") <==> IsAscii(value)
  {
    var nl := "\n";
    assert IsAscii(nl);
    IsAsciiConcat(tag, value);
    IsAsciiConcat(tag + value, nl);
  }

  /** A record encodes exactly when its four fields do: the labels are ASCII. */
  lemma RecordAscii(x: Device)
    ensures IsAscii(RecordText(x)) <==> AsciiFields(x)
  {
    var l0, l1, l2, l3 := "Mac: ", "Name: ", "Class: ", "Vendor: ";
    assert IsAscii(l0) && IsAscii(l1) && IsAscii(l2) && IsAscii(l3);
    var t0, t1 := l0 + x.macaddr + "\n", l1 + x.name + "\n";
    var t2, t3 := l2 + x.devclass + "\n", l3 + x.vendor + "\n";
    LineAscii(l0, x.macaddr);
    LineAscii(l1, x.name);
    LineAscii(l2, x.devclass);
    LineAscii(l3, x.vendor);
    assert RecordText(x) == t0 + t1 + t2 + t3;
    IsAsciiConcat(t0, t1);
    IsAsciiConcat(t0 + t1, t2);
    IsAsciiConcat(t0 + t1 + t2, t3);
  }

  /** How many leading rows have ASCII fields, and so (by `RecordAscii`) a record
      that encodes: the export writes these and fails on the next one, if any. */
  function EncodableRows(rows: seq<Device>): (n: nat)
    ensures n <= |rows|
    ensures forall k | 0 <= k < n :: AsciiFields(rows[k])
    ensures n < |rows| ==> !AsciiFields(rows[n])
    decreases |rows|
  {
    if rows == [] || !AsciiFields(rows[0]) then 0
    else
      var n := 1 + EncodableRows(rows[1..]);
      assert forall k | 1 <= k < |rows| :: rows[k] == rows[1..][k - 1];
      n
  }

  /** Writing one more record appends its text. */
  lemma {:induction false} RecordsSnoc(rows: seq<Device>, x: Device)
    ensures Records(rows + [x]) == Records(rows) + RecordText(x)
    decreases |rows|
  {
    if rows == [] {
      assert [x][1..] == [];
      assert Records([x]) == RecordText(x) + [];
      assert rows + [x] == [x];
    } else {
      var h, r := RecordText(rows[0]), RecordText(x);
      assert (rows + [x])[0] == rows[0];
      assert (rows + [x])[1..] == rows[1..] + [x];
      RecordsSnoc(rows[1..], x);
      assert Records(rows + [x]) == h + (Records(rows[1..]) + r);
      assert h + (Records(rows[1..]) + r) == (h + Records(rows[1..])) + r;
    }
  }

  /** The records of the first `i + 1` rows are those of the first `i` and then
      row `i`'s. */
  lemma RecordsPrefix(rows: seq<Device>, i: nat)
    requires i < |rows|
    ensures Records(rows[..i + 1]) == Records(rows[..i]) + RecordText(rows[i])
  {
    assert rows[..i + 1] == rows[..i] + [rows[i]];
    RecordsSnoc(rows[..i], rows[i]);
  }

  // Reading the report back

  /** Reads the lines of a report (its text split at `'\n'`): groups of four lines
      labelled `Mac: `, `Name: `, `Class: `, `Vendor: `, ended by the blank line
      of the final `"\n"` (which splitting turns into two empty pieces). */
  function ReadReport(lines: seq<string>): Option<seq<Device>>
    decreases |lines|
  {
    if lines == ["", ""] then Some([])
    else if |lines| >= 4 && HasLabel(lines[0], "Mac: ") && HasLabel(lines[1], "Name: ")
         && HasLabel(lines[2], "Class: ") && HasLabel(lines[3], "Vendor: ") then
      match ReadReport(lines[4..])
      case None => None
      case Some(rest) =>
        Some([Device(lines[0][5..], lines[1][6..], lines[2][7..], lines[3][8..])] + rest)
    else None
  }

  /** A record whose fields have no line break splits into its four lines. */
  lemma SplitRecord(x: Device, tail: string)
    requires OneLineFields(x)
    ensures Split(RecordText(x) + tail, '\n') == RecordLines(x) + Split(tail, '\n')
  {
    var l := RecordLines(x);
    var s3 := l[3] + ['\n'] + tail;
    var s2 := l[2] + ['\n'] + s3;
    var s1 := l[1] + ['\n'] + s2;
    var s0 := l[0] + ['\n'] + s1;
    assert RecordText(x) + tail == s0;
    assert '\n' !in l[0] && '\n' !in l[1] && '\n' !in l[2] && '\n' !in l[3];
    var rest := Split(tail, '\n');
    SplitCons(l[3], '\n', tail);
    SplitCons(l[2], '\n', s3);
    SplitCons(l[1], '\n', s2);
    SplitCons(l[0], '\n', s1);
    ConsFour(l[0], l[1], l[2], l[3], rest);
    assert [l[0], l[1], l[2], l[3]] == l;
  }

  /** Four single-element prefixes make one four-element prefix. */
  lemma ConsFour<T>(a: T, b: T, c: T, d: T, rest: seq<T>)
    ensures [a] + ([b] + ([c] + ([d] + rest))) == [a, b, c, d] + rest
  {
  }

  /** The four lines of a record read back as that record. */
  lemma ReadRecord(x: Device, more: seq<string>, rest: seq<Device>)
    requires |more| >= 1 && ReadReport(more) == Some(rest)
    ensures ReadReport(RecordLines(x) + more) == Some([x] + rest)
  {
    var lines := RecordLines(x) + more;
    assert lines[4..] == more;
    assert lines[0][5..] == x.macaddr && lines[1][6..] == x.name;
    assert lines[2][7..] == x.devclass && lines[3][8..] == x.vendor;
  }

  /** Re-reading the exported file gives back every row, in table order, and the
      file ends with exactly one blank line. */
  lemma {:induction false} ReadReportRoundTrip(rows: seq<Device>)
    requires forall k | 0 <= k < |rows| :: OneLineFields(rows[k])
    ensures ReadReport(Split(Report(rows), '\n')) == Some(rows)
    decreases |rows|
  {
    if rows == [] {
      assert Report(rows) == [] + ['\n'] + [];
      SplitCons([], '\n', []);
    } else {
      var x, rest := rows[0], rows[1..];
      assert Report(rows) == RecordText(x) + Report(rest);
      assert OneLineFields(x);
      SplitRecord(x, Report(rest));
      ReadReportRoundTrip(rest);
      ReadRecord(x, Split(Report(rest), '\n'), rest);
      assert [x] + rest == rows;
    }
  }
}
