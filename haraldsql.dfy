/** The SQLite database `macinfo.db` as in-memory state: the two tables, whether
    each exists, and the operations of the store that act on them. Rows are kept
    in rowid order, and every `SELECT` without `ORDER BY` is taken to return them
    in that order. */
module HaraldSql {
  import opened Wrappers
  import opened Text
  import opened Sqlite
  import opened MacInfo
  import opened Devices

  class Database {
    var hasMacinfo: bool
    var macinfo: seq<MacAddress>
    var hasDevices: bool
    var devices: seq<Device>

    /** The UNIQUE constraints hold, and a table that does not exist has no rows. */
    ghost predicate Valid()
      reads this
    {
      && UniquePrefixes(macinfo)
      && UniqueAddresses(devices)
      && (!hasMacinfo ==> macinfo == [])
      && (!hasDevices ==> devices == [])
    }

    /** A database file with no tables in it yet. */
    constructor ()
      ensures Valid()
      ensures !hasMacinfo && macinfo == [] && !hasDevices && devices == []
    {
      hasMacinfo, macinfo := false, [];
      hasDevices, devices := false, [];
    }

    /** `create_base_table`: `CREATE TABLE IF NOT EXISTS macinfo(...)`; the rows
        of an existing table are kept. */
    method CreateBaseTable()
      requires Valid()
      modifies this
      ensures Valid()
      ensures hasMacinfo && macinfo == old(macinfo)
      ensures hasDevices == old(hasDevices) && devices == old(devices)
    {
      hasMacinfo := true;
    }

    /** `create_dev_table`: `CREATE TABLE IF NOT EXISTS devices(...)`. */
    method CreateDevTable()
      requires Valid()
      modifies this
      ensures Valid()
      ensures hasDevices && devices == old(devices)
      ensures hasMacinfo == old(hasMacinfo) && macinfo == old(macinfo)
    {
      hasDevices := true;
    }

    /** `drop_dev_table`: `DROP TABLE IF EXISTS devices`. */
    method DropDevTable()
      requires Valid()
      modifies this
      ensures Valid()
      ensures !hasDevices && devices == []
      ensures hasMacinfo == old(hasMacinfo) && macinfo == old(macinfo)
    {
      hasDevices, devices := false, [];
    }

    /** `setup_dev_table`: drop and re-create the devices table, so that it exists
        and is empty whatever it held before; `macinfo` is not touched. */
    method SetupDevTable()
      requires Valid()
      modifies this
      ensures Valid()
      ensures hasDevices && devices == []
      ensures hasMacinfo == old(hasMacinfo) && macinfo == old(macinfo)
    {
      DropDevTable();
      CreateDevTable();
    }

    /** `insert_address_object`: insert the (prefix, vendor) pair. `Ok(true)` when
        the prefix was new and the row is appended, `Ok(false)` (the IntegrityError
        caught) when the prefix is taken and nothing changes. Without the table the
        OperationalError is not caught and nothing changes. */
    method InsertAddressObject(address: MacAddress) returns (r: Result<bool, DbError>)
      requires Valid()
      modifies this
      ensures Valid()
      ensures !old(hasMacinfo) ==> r == Err(OperationalError) && macinfo == old(macinfo)
      ensures old(hasMacinfo) ==> r == Ok(address.prefix !in Prefixes(old(macinfo)))
      ensures old(hasMacinfo) ==> macinfo == InsertRow(old(macinfo), address).rows
      ensures hasMacinfo == old(hasMacinfo)
      ensures hasDevices == old(hasDevices) && devices == old(devices)
    {
      if !hasMacinfo {
        return Err(OperationalError);
      }
      var insertion := InsertRow(macinfo, address);
      macinfo := insertion.rows;
      r := Ok(insertion.inserted);
    }

    /** `insert_dev_table`: insert the device. A taken address raises
        IntegrityError (re-raised to the caller) and a missing table raises
        OperationalError; in both cases nothing changes. */
    method InsertDevTable(addr: string, name: string, devclass: string, vendor: string)
      returns (r: Outcome<DbError>)
      requires Valid()
      modifies this
      ensures Valid()
      ensures !old(hasDevices) ==> r == Fail(OperationalError) && devices == old(devices)
      ensures old(hasDevices) ==>
        DeviceInsertion(devices, r) == InsertDevice(old(devices), Device(addr, name, devclass, vendor))
      ensures hasDevices == old(hasDevices)
      ensures hasMacinfo == old(hasMacinfo) && macinfo == old(macinfo)
    {
      if !hasDevices {
        return Fail(OperationalError);
      }
      var insertion := InsertDevice(devices, Device(addr, name, devclass, vendor));
      devices := insertion.rows;
      r := insertion.outcome;
    }

    /** `refresh_maclist`, with the lines of MACLIST as they are read (each with its
        line break). The table is created if missing, then each line is parsed and
        inserted in turn, and the prefix's status set to `Added` or `Existed`. The
        result is the status dictionary, or the index of the first line without a
        comma (the IndexError), with the lines before it inserted. */
    method RefreshMaclist(lines: seq<string>) returns (r: Result<map<string, Status>, nat>)
      requires Valid()
      modifies this
      ensures Valid() && hasMacinfo
      ensures hasDevices == old(hasDevices) && devices == old(devices)
      ensures r.Ok? <==> AllParse(lines)
      ensures r.Ok? ==> r.value == StatusOf(old(macinfo), Entries(lines))
      ensures r.Ok? ==> macinfo == Load(old(macinfo), Entries(lines))
      ensures r.Err? ==> r.error < |lines| && ParseLine(lines[r.error]).None?
      ensures r.Err? ==> AllParse(lines[..r.error])
      ensures r.Err? ==> macinfo == Load(old(macinfo), Entries(lines[..r.error]))
    {
      CreateBaseTable();
      var status: map<string, Status> := map[];
      var i := 0;
      assert Entries(lines[..0]) == [];
      while i < |lines|
        invariant 0 <= i <= |lines|
        invariant Valid() && hasMacinfo
        invariant hasDevices == old(hasDevices) && devices == old(devices)
        invariant AllParse(lines[..i])
        invariant macinfo == Load(old(macinfo), Entries(lines[..i]))
        invariant status == StatusOf(old(macinfo), Entries(lines[..i]))
      {
        var parsed := ParseLine(lines[i]);
        if parsed.None? {
          return Err(i);
        }
        var address := parsed.value;
        LoadLine(old(macinfo), lines, i);
        ghost var before := macinfo;
        var inserted := InsertAddressObject(address);
        if inserted == Ok(true) {
          status := status[address.prefix := Added];
        } else {
          status := status[address.prefix := Existed];
        }
        assert InsertRow(before, address).inserted == (inserted == Ok(true));
        assert macinfo == Load(old(macinfo), Entries(lines[..i + 1]));
        assert status == StatusOf(old(macinfo), Entries(lines[..i + 1]));
        i := i + 1;
      }
      assert lines[..i] == lines;
      r := Ok(status);
    }

    /** `show_dev_table`: `SELECT * FROM devices`; without the table the
        OperationalError is not caught. */
    method ShowDevTable() returns (r: Result<seq<Device>, DbError>)
      ensures hasDevices ==> r == Ok(devices)
      ensures !hasDevices ==> r == Err(OperationalError)
    {
      if !hasDevices {
        return Err(OperationalError);
      }
      r := Ok(devices);
    }

    /** `write_dev_table`: the text of the file. The file is opened for writing
        (and so emptied) before the query; then each row's record is written, in
        table order, followed by one `"\n"`. When the query fails the file is left
        empty. A record with a character the default `ascii` codec cannot encode
        raises UnicodeEncodeError: the file keeps the records before it. */
    method WriteDevTable() returns (file: string, r: Outcome<ExportError>)
      ensures hasDevices && EncodableRows(devices) == |devices| ==>
        file == Report(devices) && r == Pass
      ensures hasDevices && EncodableRows(devices) < |devices| ==>
        file == Records(devices[..EncodableRows(devices)]) && r == Fail(UnicodeEncodeError)
      ensures !hasDevices ==> file == "" && r == Fail(QueryError(OperationalError))
    {
      file := "";
      var results := ShowDevTable();
      if results.Err? {
        return file, Fail(QueryError(results.error));
      }
      var rows := results.value;
      for i := 0 to |rows|
        invariant file == Records(rows[..i])
        invariant i <= EncodableRows(rows)
      {
        if !AsciiFields(rows[i]) {
          assert EncodableRows(rows) == i;
          return file, Fail(UnicodeEncodeError);
        }
        RecordsPrefix(rows, i);
        file := file + RecordText(rows[i]);
      }
      assert rows[..|rows|] == rows;
      file := file + "\n";
      r := Pass;
    }

    /** `mac_resolve`: the vendor of the first `macinfo` row whose prefix is LIKE
        the address's first 8 characters, or `"Unknown"`. Without the table the
        OperationalError is not caught. */
    method MacResolve(macaddr: string) returns (r: Result<string, DbError>)
      ensures hasMacinfo ==> r == Ok(Resolve(macinfo, macaddr))
      ensures !hasMacinfo ==> r == Err(OperationalError)
    {
      if !hasMacinfo {
        return Err(OperationalError);
      }
      var pattern := Truncate(macaddr, 8);
      var i := 0;
      while i < |macinfo|
        invariant 0 <= i <= |macinfo|
        invariant FirstMatch(macinfo[i..], pattern) == FirstMatch(macinfo, pattern)
      {
        if Like(pattern, macinfo[i].prefix) {
          return Ok(macinfo[i].maker);
        }
        assert macinfo[i..][1..] == macinfo[i + 1..];
        i := i + 1;
      }
      r := Ok("Unknown");
    }
  }
}
