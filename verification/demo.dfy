/**
 * The records and the query of the program's `main`: three customer records
 * stored under `k_1`, `k_2` and `k_3`, the third with `=` and `;` in its name
 * and address, and a scan for the field `name = Customer#000000001`.
 */
module Demo {
  import opened Wire
  import opened Codec
  import opened Scan

  /** The bytes of a string literal whose characters are all single bytes. */
  function Ascii(s: string): Bytes
    requires forall i | 0 <= i < |s| :: s[i] as int < 0x100
  {
    seq(|s|, i requires 0 <= i < |s| => s[i] as int as byte)
  }

  function Record1(): FieldArray
  {
    [ Field(Ascii("name"), Ascii("Customer#000000001")),
      Field(Ascii("address"), Ascii("IVhzIApeRb")),
      Field(Ascii("phone"), Ascii("25-989-741-2988")) ]
  }

  function Record2(): FieldArray
  {
    [ Field(Ascii("name"), Ascii("Customer#000000002")),
      Field(Ascii("address"), Ascii("N3qjPOETGc")),
      Field(Ascii("phone"), Ascii("12-345-678-9012")) ]
  }

  /** The record whose name and address hold `=` and `;`. */
  function Record3(): FieldArray
  {
    [ Field(Ascii("name"), Ascii("Customer=000000003")),
      Field(Ascii("address"), Ascii("N3qj;POETGc")),
      Field(Ascii("phone"), Ascii("12-345-678-9012")) ]
  }

  /**
   * The store after the three `Put`s, in key order, assuming the database held
   * nothing before: `main` opens an existing database as it is and never clears
   * it, so entries from earlier runs would also be scanned.
   */
  function DemoStore(): seq<Entry>
  {
    [ Entry(Ascii("k_1"), Encode(Record1())),
      Entry(Ascii("k_2"), Encode(Record2())),
      Entry(Ascii("k_3"), Encode(Record3())) ]
  }

  function DemoQuery(): Field
  {
    Field(Ascii("name"), Ascii("Customer#000000001"))
  }

  /** The first record reads back as written. */
  lemma Record1RoundTrip()
    ensures Parse(Encode(Record1())) == Record1()
  {
    RoundTrip(Record1());
  }

  /** The second record reads back as written. */
  lemma Record2RoundTrip()
    ensures Parse(Encode(Record2())) == Record2()
  {
    RoundTrip(Record2());
  }

  /**
   * The record with `=` and `;` in its name and address reads back as written:
   * the format delimits by length, not by any character.
   */
  lemma SpecialCharactersRoundTrip()
    ensures Parse(Encode(Record3())) == Record3()
  {
    RoundTrip(Record3());
  }

  /** Only the first record holds the queried name. */
  lemma DemoQueryHeldBy()
    ensures DemoQuery() in Record1()
    ensures DemoQuery() !in Record2()
    ensures DemoQuery() !in Record3()
  {
    var q := DemoQuery();
    assert Record1()[0] == q;
    assert Record2()[0].value[17] != q.value[17];
    assert Record3()[0].value[8] != q.value[8];
    assert Record2()[1].name[0] != q.name[0] && Record2()[2].name[0] != q.name[0];
    assert Record3()[1].name[0] != q.name[0] && Record3()[2].name[0] != q.name[0];
  }

  /** The scan for `name = Customer#000000001` finds `k_1` and nothing else. */
  lemma DemoScan()
    ensures MatchingKeys(DemoStore(), DemoQuery()) == [Ascii("k_1")]
  {
    Record1RoundTrip();
    Record2RoundTrip();
    SpecialCharactersRoundTrip();
    DemoQueryHeldBy();
    ScanFirstOfThree(DemoStore(), DemoQuery());
  }

  /** Over three entries, a query held only by the first record selects its key alone. */
  lemma ScanFirstOfThree(store: seq<Entry>, query: Field)
    requires |store| == 3
    requires query in Parse(store[0].value)
    requires query !in Parse(store[1].value) && query !in Parse(store[2].value)
    ensures MatchingKeys(store, query) == [store[0].key]
  {
    assert store[..0] == [];
    MatchingKeysStep(store, query, 0, Parse(store[0].value));
    MatchingKeysStep(store, query, 1, Parse(store[1].value));
    MatchingKeysStep(store, query, 2, Parse(store[2].value));
    assert store[..3] == store;
  }
}
