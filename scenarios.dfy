/** Worked examples: three entries loaded into an empty table, and the resolver
    on the result. */
module Scenarios {
  import opened Text
  import opened Sqlite
  import opened MacInfo

  const acme := MacAddress("AA:BB:CC", "Acme")
  const other := MacAddress("AA:BB:CC", "Other")
  const widget := MacAddress("11:22:33", "Widget")

  /** The first line goes in and is `Added`. */
  lemma LoadSampleFirst()
    ensures Load([], [acme]) == [acme]
    ensures StatusOf([], [acme]) == map[acme.prefix := Added]
  {
    var t0: seq<MacAddress> := [];
    assert [acme] == t0 + [acme];
    assert Prefixes(t0) == {};
    LoadSnoc(t0, [], acme);
  }

  /** The second line has the same prefix: it is rejected and overwrites the
      status with `Existed`. */
  lemma LoadSampleSecond()
    ensures Load([], [acme, other]) == [acme]
    ensures StatusOf([], [acme, other]) == map[acme.prefix := Existed]
  {
    var t0: seq<MacAddress> := [];
    assert [acme, other] == [acme] + [other];
    Overwrite(acme.prefix, Added, Existed);
    LoadSampleFirst();
    assert [acme][0].prefix == other.prefix;
    LoadSnoc(t0, [acme], other);
  }

  /** Loading `AA:BB:CC, Acme`, `AA:BB:CC, Other`, `11:22:33, Widget` into an empty
      table keeps two rows, with Acme for AA:BB:CC; the second AA:BB:CC line
      overwrites that prefix's status with `Existed`. */
  lemma LoadSample()
    ensures Load([], [acme, other, widget]) == [acme, widget]
    ensures StatusOf([], [acme, other, widget]) == map["AA:BB:CC" := Existed, "11:22:33" := Added]
  {
    var t0: seq<MacAddress> := [];
    assert [acme, other, widget] == [acme, other] + [widget];
    assert [acme, widget] == [acme] + [widget];
    LoadSampleSecond();
    assert widget.prefix !in Prefixes([acme]) by {
      assert acme.prefix[0] != widget.prefix[0];
    }
    LoadSnoc(t0, [acme, other], widget);
  }

  /** A second update of a key replaces the first. */
  lemma Overwrite<K, V>(k: K, first: V, second: V)
    ensures map[k := first][k := second] == map[k := second]
  {
  }

  /** On the loaded table, an address under AA:BB:CC resolves to Acme. */
  lemma ResolveSampleKnown()
    ensures Resolve([acme, widget], "AA:BB:CC:DD:EE:FF") == "Acme"
  {
    assert Truncate("AA:BB:CC:DD:EE:FF", 8) == "AA:BB:CC";
    assert EqualIgnoringAsciiCase("AA:BB:CC", acme.prefix);
    ResolveKnownPrefix([acme, widget], "AA:BB:CC:DD:EE:FF", 0);
  }

  /** On the loaded table, an address under FF:FF:FF resolves to `"Unknown"`. */
  lemma ResolveSampleUnknown()
    ensures Resolve([acme, widget], "FF:FF:FF:00:00:00") == "Unknown"
  {
    assert Truncate("FF:FF:FF:00:00:00", 8) == "FF:FF:FF";
    assert !EqualIgnoringAsciiCase("FF:FF:FF", acme.prefix) by {
      assert "FF:FF:FF"[0] == 'F' && acme.prefix[0] == 'A';
      assert LowerAscii('F') != LowerAscii('A');
    }
    assert !EqualIgnoringAsciiCase("FF:FF:FF", widget.prefix) by {
      assert "FF:FF:FF"[0] == 'F' && widget.prefix[0] == '1';
      assert LowerAscii('F') != LowerAscii('1');
    }
    ResolveUnknown([acme, widget], "FF:FF:FF:00:00:00");
  }
}
