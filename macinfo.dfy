/** The reference table `macinfo(id, prefix UNIQUE, vendor)` as a sequence of rows in
    rowid order, the line format of the MACLIST file, and the specification of the
    bulk load and of the resolver. */
module MacInfo {
  import opened Wrappers
  import opened Text
  import opened Sqlite

  /** One mapping from an address prefix to its vendor (the `MacAddress` record of
      the source); also one row of `macinfo`, whose `id` is its position. */
  datatype MacAddress = MacAddress(prefix: string, maker: string)

  /** What the loader reports for one prefix. */
  datatype Status = Added | Existed

  function Prefixes(t: seq<MacAddress>): (ps: set<string>)
    ensures forall k | 0 <= k < |t| :: t[k].prefix in ps
  {
    set k | 0 <= k < |t| :: t[k].prefix
  }

  /** The UNIQUE constraint on `prefix`. */
  ghost predicate UniquePrefixes(t: seq<MacAddress>) {
    forall i, j | 0 <= i < j < |t| :: t[i].prefix != t[j].prefix
  }

  /** A non-empty sequence is its front followed by its last element. */
  lemma LastSplit<T>(s: seq<T>)
    requires s != []
    ensures s == s[..|s| - 1] + [s[|s| - 1]]
  {
  }

  /** Appending a row adds its prefix to the set of prefixes. */
  lemma PrefixesSnoc(t: seq<MacAddress>, a: MacAddress)
    ensures Prefixes(t + [a]) == Prefixes(t) + {a.prefix}
  {
    assert (t + [a])[|t|] == a;
    forall q | q in Prefixes(t + [a]) ensures q in Prefixes(t) + {a.prefix} {
      var k :| 0 <= k < |t + [a]| && (t + [a])[k].prefix == q;
      if k < |t| { assert (t + [a])[k] == t[k]; }
    }
    forall q | q in Prefixes(t) ensures q in Prefixes(t + [a]) {
      var k :| 0 <= k < |t| && t[k].prefix == q;
      assert (t + [a])[k] == t[k];
    }
  }

  /** The table after an `INSERT INTO macinfo`, and whether the row went in. */
  datatype Insertion = Insertion(rows: seq<MacAddress>, inserted: bool)

  /** `INSERT INTO macinfo(prefix, vendor)` on table `t`. The row goes in exactly
      when its prefix is not yet in the table, and is then appended; otherwise
      the insert is an IntegrityError and the table stays as it was. The UNIQUE
      constraint is kept. */
  function InsertRow(t: seq<MacAddress>, a: MacAddress): (r: Insertion)
    ensures r.inserted <==> a.prefix !in Prefixes(t)
    ensures r.rows == if r.inserted then t + [a] else t
    ensures UniquePrefixes(t) ==> UniquePrefixes(r.rows)
  {
    if a.prefix in Prefixes(t) then Insertion(t, false) else Insertion(t + [a], true)
  }

  /** Table `t` after inserting every entry of `entries` in turn: at most one row
      is added per entry. */
  function Load(t: seq<MacAddress>, entries: seq<MacAddress>): (r: seq<MacAddress>)
    ensures |t| <= |r| <= |t| + |entries|
    decreases |entries|
  {
    if entries == [] then t
    else InsertRow(Load(t, entries[..|entries| - 1]), entries[|entries| - 1]).rows
  }

  /** The status dictionary after loading `entries` into `t`: each prefix is set
      to the status of its latest insertion attempt, so every loaded prefix has
      a status. */
  function StatusOf(t: seq<MacAddress>, entries: seq<MacAddress>): (r: map<string, Status>)
    ensures forall k | 0 <= k < |entries| :: entries[k].prefix in r
    decreases |entries|
  {
    if entries == [] then map[]
    else
      var init := entries[..|entries| - 1];
      var a := entries[|entries| - 1];
      assert forall k | 0 <= k < |init| :: entries[k] == init[k];
      var added := InsertRow(Load(t, init), a).inserted;
      StatusOf(t, init)[a.prefix := if added then Added else Existed]
  }

  /** How many entries carry prefix `p`. */
  function Occurrences(entries: seq<MacAddress>, p: string): nat
    decreases |entries|
  {
    if entries == [] then 0
    else Occurrences(entries[..|entries| - 1], p) + (if entries[|entries| - 1].prefix == p then 1 else 0)
  }

  /** The vendor of the first row with prefix `p`. */
  function VendorOf(t: seq<MacAddress>, p: string): Option<string>
    decreases |t|
  {
    if t == [] then None
    else if t[0].prefix == p then Some(t[0].maker)
    else VendorOf(t[1..], p)
  }

  // ---------------------------------------------------------------------------
  // One insertion

  /** Loading one more entry is one more insertion, and sets that entry's prefix
      in the status dictionary to the outcome of that insertion. */
  lemma LoadSnoc(t: seq<MacAddress>, entries: seq<MacAddress>, a: MacAddress)
    ensures Load(t, entries + [a]) == InsertRow(Load(t, entries), a).rows
    ensures StatusOf(t, entries + [a]) ==
      StatusOf(t, entries)[a.prefix := if InsertRow(Load(t, entries), a).inserted then Added else Existed]
  {
    assert (entries + [a])[..|entries|] == entries;
  }

  lemma {:induction false} VendorOfSome(t: seq<MacAddress>, p: string)
    ensures VendorOf(t, p).Some? <==> p in Prefixes(t)
    decreases |t|
  {
    if t != [] {
      VendorOfSome(t[1..], p);
      assert Prefixes(t) == {t[0].prefix} + Prefixes(t[1..]) by {
        forall q | q in Prefixes(t) ensures q in {t[0].prefix} + Prefixes(t[1..]) {
          var k :| 0 <= k < |t| && t[k].prefix == q;
          if k > 0 { assert t[1..][k - 1] == t[k]; }
        }
        forall q | q in Prefixes(t[1..]) ensures q in Prefixes(t) {
          var k :| 0 <= k < |t[1..]| && t[1..][k].prefix == q;
          assert t[k + 1] == t[1..][k];
        }
      }
    }
  }

  /** Appending a row does not change the vendor already found for a prefix, and
      gives a prefix not yet present the appended row's vendor. */
  lemma {:induction false} VendorOfAppend(t: seq<MacAddress>, a: MacAddress, p: string)
    ensures VendorOf(t + [a], p) ==
      if p in Prefixes(t) then VendorOf(t, p)
      else if a.prefix == p then Some(a.maker) else None
    decreases |t|
  {
    VendorOfSome(t, p);
    if t == [] {
      assert t + [a] == [a];
      assert [a][1..] == [];
    } else {
      assert (t + [a])[1..] == t[1..] + [a];
      VendorOfAppend(t[1..], a, p);
      VendorOfSome(t[1..], p);
      if t[0].prefix != p {
        assert p in Prefixes(t) <==> p in Prefixes(t[1..]);
      }
    }
  }

  // ---------------------------------------------------------------------------
  // The bulk load

  /** Loading only appends: the rows already in the table stay where they were. */
  lemma {:induction false} LoadKeepsRows(t: seq<MacAddress>, entries: seq<MacAddress>)
    ensures Load(t, entries)[..|t|] == t
    decreases |entries|
  {
    if entries != [] {
      LoadKeepsRows(t, entries[..|entries| - 1]);
      var l := Load(t, entries[..|entries| - 1]);
      assert (l + [entries[|entries| - 1]])[..|t|] == l[..|t|];
    }
  }

  /** After a load the table holds exactly the prefixes it held before and the
      prefixes of the loaded entries. */
  lemma {:induction false} LoadPrefixes(t: seq<MacAddress>, entries: seq<MacAddress>)
    ensures Prefixes(Load(t, entries)) == Prefixes(t) + Prefixes(entries)
    decreases |entries|
  {
    if entries != [] {
      var init, a := entries[..|entries| - 1], entries[|entries| - 1];
      LoadPrefixes(t, init);
      var l := Load(t, init);
      LastSplit(entries);
      PrefixesSnoc(init, a);
      var ps := Prefixes(t) + Prefixes(init);
      assert Prefixes(t) + Prefixes(entries) == ps + {a.prefix};
      if a.prefix in Prefixes(l) {
        assert Load(t, entries) == l;
        assert ps + {a.prefix} == ps;
      } else {
        assert Load(t, entries) == l + [a];
        PrefixesSnoc(l, a);
      }
    }
  }

  /** The UNIQUE constraint holds after every load. */
  lemma {:induction false} LoadUnique(t: seq<MacAddress>, entries: seq<MacAddress>)
    requires UniquePrefixes(t)
    ensures UniquePrefixes(Load(t, entries))
    decreases |entries|
  {
    if entries != [] {
      LoadUnique(t, entries[..|entries| - 1]);
    }
  }

  /** A prefix that was in the table before the load keeps its vendor. */
  lemma {:induction false} LoadExistingWins(t: seq<MacAddress>, entries: seq<MacAddress>, p: string)
    requires p in Prefixes(t)
    ensures VendorOf(Load(t, entries), p) == VendorOf(t, p)
    decreases |entries|
  {
    if entries != [] {
      var init, a := entries[..|entries| - 1], entries[|entries| - 1];
      LoadExistingWins(t, init, p);
      LoadPrefixes(t, init);
      VendorOfAppend(Load(t, init), a, p);
    }
  }

  /** A prefix new to the table gets the vendor of its first entry in the load:
      later entries for it are rejected. */
  lemma {:induction false} LoadFirstWins(t: seq<MacAddress>, entries: seq<MacAddress>, p: string, k: nat)
    requires p !in Prefixes(t)
    requires k < |entries| && entries[k].prefix == p
    requires forall j | 0 <= j < k :: entries[j].prefix != p
    ensures VendorOf(Load(t, entries), p) == Some(entries[k].maker)
    decreases |entries|
  {
    var init, a := entries[..|entries| - 1], entries[|entries| - 1];
    var l := Load(t, init);
    assert Load(t, entries) == InsertRow(l, a).rows;
    LoadPrefixes(t, init);
    VendorOfAppend(l, a, p);
    if k != |entries| - 1 {
      assert init[k] == entries[k];
      LoadFirstWins(t, init, p, k);
      VendorOfSome(l, p);
    }
  }

  /** The status dictionary has exactly one key per prefix of the loaded entries. */
  lemma {:induction false} StatusKeys(t: seq<MacAddress>, entries: seq<MacAddress>)
    ensures StatusOf(t, entries).Keys == Prefixes(entries)
    decreases |entries|
  {
    if entries != [] {
      var init, a := entries[..|entries| - 1], entries[|entries| - 1];
      StatusKeys(t, init);
      var added := InsertRow(Load(t, init), a).inserted;
      assert StatusOf(t, entries) == StatusOf(t, init)[a.prefix := if added then Added else Existed];
      assert StatusOf(t, entries).Keys == StatusOf(t, init).Keys + {a.prefix};
      LastSplit(entries);
      PrefixesSnoc(init, a);
    }
  }

  lemma {:induction false} OccurrencesPositive(entries: seq<MacAddress>, p: string)
    ensures Occurrences(entries, p) > 0 <==> p in Prefixes(entries)
    decreases |entries|
  {
    if entries != [] {
      var init, a := entries[..|entries| - 1], entries[|entries| - 1];
      OccurrencesPositive(init, p);
      LastSplit(entries);
      if p in Prefixes(entries) && a.prefix != p {
        var k :| 0 <= k < |entries| && entries[k].prefix == p;
        assert init[k] == entries[k];
      }
      if p in Prefixes(init) {
        var k :| 0 <= k < |init| && init[k].prefix == p;
        assert entries[k] == init[k];
      }
    }
  }

  /** A prefix is reported `Added` exactly when it was absent before the load and
      occurs once in the loaded entries; otherwise it is reported `Existed`
      (the second occurrence of a new prefix overwrites its `Added`). */
  lemma {:induction false} StatusAdded(t: seq<MacAddress>, entries: seq<MacAddress>, p: string)
    requires p in StatusOf(t, entries)
    ensures StatusOf(t, entries)[p] == Added <==> p !in Prefixes(t) && Occurrences(entries, p) == 1
    ensures StatusOf(t, entries)[p] == Existed <==> !(p !in Prefixes(t) && Occurrences(entries, p) == 1)
    decreases |entries|
  {
    var init, a := entries[..|entries| - 1], entries[|entries| - 1];
    if a.prefix == p {
      LoadPrefixes(t, init);
      OccurrencesPositive(init, p);
    } else {
      StatusAdded(t, init, p);
    }
  }

  // ---------------------------------------------------------------------------
  // Parsing the MACLIST file

  /** One MACLIST line: `line.split(',')`, the prefix is the first field stripped
      and the vendor the second field stripped; any further fields are dropped.
      A line without a comma has no second field (`x[1]` raises IndexError). */
  function ParseLine(line: string): (r: Option<MacAddress>)
    ensures r.Some? ==> Trimmed(r.value.prefix) && Trimmed(r.value.maker)
  {
    var x := Split(line, ',');
    if |x| < 2 then None else Some(MacAddress(Strip(x[0]), Strip(x[1])))
  }

  /** A line fails to parse exactly when it has no comma. */
  lemma ParseLineFails(line: string)
    ensures ParseLine(line).None? <==> ',' !in line
  {
    var x := Split(line, ',');
    JoinSplit(line, ',');
    if |x| < 2 {
      SplitPiecesFree(line, ',');
    } else {
      assert line == x[0] + [','] + Join(x[1..], ',');
      assert line[|x[0]|] == ',';
    }
  }

  /** A line made of a comma-free prefix field, a comma and a comma-free vendor
      field parses to the two fields stripped. */
  lemma ParseLineFields(prefixField: string, makerField: string)
    requires ',' !in prefixField && ',' !in makerField
    ensures ParseLine(prefixField + [','] + makerField) ==
      Some(MacAddress(Strip(prefixField), Strip(makerField)))
  {
    var line := prefixField + [','] + makerField;
    SplitCons(prefixField, ',', makerField);
    SplitNone(makerField, ',');
    var x := Split(line, ',');
    assert x == [prefixField, makerField];
  }

  /** Fields after the second are dropped: more comma-separated text after the
      vendor field does not change the parse. */
  lemma ParseLineExtraFields(prefixField: string, makerField: string, tail: string)
    requires ',' !in prefixField && ',' !in makerField
    ensures ParseLine(prefixField + [','] + makerField + [','] + tail) ==
      Some(MacAddress(Strip(prefixField), Strip(makerField)))
  {
    var rest := makerField + [','] + tail;
    SplitCons(makerField, ',', tail);
    assert prefixField + [','] + makerField + [','] + tail == prefixField + [','] + rest;
    SplitCons(prefixField, ',', rest);
  }

  /** A line as the MACLIST file has it, `prefix, vendor` and a line break, parses
      to the prefix and the vendor. */
  lemma ParseTypicalLine(prefix: string, maker: string)
    requires ',' !in prefix && ',' !in maker && Trimmed(prefix) && Trimmed(maker)
    ensures ParseLine(prefix + ", " + maker + "\n") == Some(MacAddress(prefix, maker))
  {
    assert AllSpace(" ") && AllSpace("\n");
    assert prefix + ", " + maker + "\n" == prefix + [','] + (" " + maker + "\n");
    ParseLineFields(prefix, " " + maker + "\n");
    StripPadded([], prefix, []);
    assert [] + prefix + [] == prefix;
    StripPadded(" ", maker, "\n");
  }

  /** Every line of the file has a comma. */
  predicate AllParse(lines: seq<string>) {
    forall k | 0 <= k < |lines| :: ParseLine(lines[k]).Some?
  }

  /** The entries of a file whose every line parses, in file order. */
  function Entries(lines: seq<string>): (r: seq<MacAddress>)
    requires AllParse(lines)
    ensures |r| == |lines|
    ensures forall k | 0 <= k < |lines| :: ParseLine(lines[k]) == Some(r[k])
    decreases |lines|
  {
    if lines == [] then []
    else
      var init := lines[..|lines| - 1];
      assert AllParse(init) by {
        forall k | 0 <= k < |init| ensures ParseLine(init[k]).Some? {
          assert init[k] == lines[k];
        }
      }
      var front := Entries(init);
      var r := front + [ParseLine(lines[|lines| - 1]).value];
      assert forall k | 0 <= k < |lines| :: ParseLine(lines[k]) == Some(r[k]) by {
        forall k | 0 <= k < |lines| ensures ParseLine(lines[k]) == Some(r[k]) {
          if k < |init| { assert lines[k] == init[k] && r[k] == front[k]; }
        }
      }
      r
  }

  /** One more line that parses extends the entries by that line's entry. */
  lemma EntriesSnoc(lines: seq<string>, n: nat)
    requires n < |lines| && AllParse(lines[..n]) && ParseLine(lines[n]).Some?
    ensures AllParse(lines[..n + 1])
    ensures Entries(lines[..n + 1]) == Entries(lines[..n]) + [ParseLine(lines[n]).value]
  {
    var longer := lines[..n + 1];
    assert longer[..n] == lines[..n];
    forall k | 0 <= k < n + 1 ensures ParseLine(longer[k]).Some? {
      if k < n { assert longer[k] == lines[..n][k]; }
    }
  }

  /** Loading the first `n + 1` lines is loading the first `n` and inserting the
      entry of line `n`; its prefix's status is that insert's outcome. */
  lemma LoadLine(t: seq<MacAddress>, lines: seq<string>, n: nat)
    requires n < |lines| && AllParse(lines[..n]) && ParseLine(lines[n]).Some?
    ensures AllParse(lines[..n + 1])
    ensures Load(t, Entries(lines[..n + 1])) ==
      InsertRow(Load(t, Entries(lines[..n])), ParseLine(lines[n]).value).rows
    ensures StatusOf(t, Entries(lines[..n + 1])) ==
      StatusOf(t, Entries(lines[..n]))[ParseLine(lines[n]).value.prefix :=
        if InsertRow(Load(t, Entries(lines[..n])), ParseLine(lines[n]).value).inserted then Added else Existed]
  {
    EntriesSnoc(lines, n);
    LoadSnoc(t, Entries(lines[..n]), ParseLine(lines[n]).value);
  }

  // ---------------------------------------------------------------------------
  // The resolver

  /** `SELECT * FROM macinfo WHERE prefix LIKE pattern`, first row in rowid order:
      its vendor, or `"Unknown"` when no row matches. The answer is never
      anything but `"Unknown"` or the vendor of a row that matches. */
  function FirstMatch(t: seq<MacAddress>, pattern: string): (r: string)
    ensures r == "Unknown" || exists k | 0 <= k < |t| :: Like(pattern, t[k].prefix) && t[k].maker == r
    decreases |t|
  {
    if t == [] then "Unknown"
    else if Like(pattern, t[0].prefix) then t[0].maker
    else FirstMatch(t[1..], pattern)
  }

  /** `mac_resolve`: the address is cut to its first 8 characters (`xx:xx:xx`)
      and used as the LIKE pattern; the answer is `"Unknown"` or the vendor of a
      row whose prefix matches those 8 characters. */
  function Resolve(t: seq<MacAddress>, macaddr: string): (r: string)
    ensures r == "Unknown" ||
      exists k | 0 <= k < |t| :: Like(Truncate(macaddr, 8), t[k].prefix) && t[k].maker == r
  {
    FirstMatch(t, Truncate(macaddr, 8))
  }

  /** The resolver answers with the vendor of the first row that matches. */
  lemma {:induction false} FirstMatchFound(t: seq<MacAddress>, pattern: string, k: nat)
    requires k < |t| && Like(pattern, t[k].prefix)
    requires forall j | 0 <= j < k :: !Like(pattern, t[j].prefix)
    ensures FirstMatch(t, pattern) == t[k].maker
    decreases k
  {
    if k > 0 {
      assert !Like(pattern, t[0].prefix);
      FirstMatchFound(t[1..], pattern, k - 1);
    }
  }

  /** The resolver answers `"Unknown"` when no row matches. */
  lemma {:induction false} FirstMatchNone(t: seq<MacAddress>, pattern: string)
    requires forall j | 0 <= j < |t| :: !Like(pattern, t[j].prefix)
    ensures FirstMatch(t, pattern) == "Unknown"
    decreases |t|
  {
    if t != [] {
      FirstMatchNone(t[1..], pattern);
    }
  }

  /** Only the first 8 characters of the address matter. */
  lemma ResolveFirst8(t: seq<MacAddress>, a: string, b: string)
    requires Truncate(a, 8) == Truncate(b, 8)
    ensures Resolve(t, a) == Resolve(t, b)
  {
  }

  /** An address whose first 8 characters equal, up to ASCII case, the prefix of
      row `k`, with no earlier row equal to them, resolves to row `k`'s vendor,
      whatever follows those 8 characters. */
  lemma ResolveKnownPrefix(t: seq<MacAddress>, macaddr: string, k: nat)
    requires NoWildcards(Truncate(macaddr, 8))
    requires k < |t| && EqualIgnoringAsciiCase(Truncate(macaddr, 8), t[k].prefix)
    requires forall j | 0 <= j < k :: !EqualIgnoringAsciiCase(Truncate(macaddr, 8), t[j].prefix)
    ensures Resolve(t, macaddr) == t[k].maker
  {
    var pattern := Truncate(macaddr, 8);
    LikeLiteral(pattern, t[k].prefix);
    forall j | 0 <= j < k ensures !Like(pattern, t[j].prefix) {
      LikeLiteral(pattern, t[j].prefix);
    }
    FirstMatchFound(t, pattern, k);
  }

  /** An address whose first 8 characters equal no prefix up to ASCII case
      resolves to `"Unknown"`. */
  lemma ResolveUnknown(t: seq<MacAddress>, macaddr: string)
    requires NoWildcards(Truncate(macaddr, 8))
    requires forall j | 0 <= j < |t| :: !EqualIgnoringAsciiCase(Truncate(macaddr, 8), t[j].prefix)
    ensures Resolve(t, macaddr) == "Unknown"
  {
    var pattern := Truncate(macaddr, 8);
    forall j | 0 <= j < |t| ensures !Like(pattern, t[j].prefix) {
      LikeLiteral(pattern, t[j].prefix);
    }
    FirstMatchNone(t, pattern);
  }
}
