/**
 * The record codec: `SerializeValue` turns an ordered list of (name, value)
 * fields into one byte string and `ParseValue` reads it back.
 *
 * Layout: the field count as a 4-byte unsigned integer, then for each field in
 * order its name length (4 bytes), the name, its value length (4 bytes) and the
 * value. `Encode` is that layout as a function; `Parse` is what the reading code
 * computes on ANY byte string, following the input stream's `read` rules, so
 * that truncated input is modelled too.
 */
module Codec {
  import opened Wire
  import opened Streams

  /** `std::pair<std::string, std::string>`: a name and a value. */
  datatype Field = Field(name: Bytes, value: Bytes)

  type FieldArray = seq<Field>

  /** The name and value lengths are representable as `uint32_t`. */
  predicate FieldFits(f: Field)
  {
    |f.name| < U32_LIMIT && |f.value| < U32_LIMIT
  }

  /** The field count and every length are representable as `uint32_t`. */
  predicate Fits(fields: FieldArray)
  {
    |fields| < U32_LIMIT && forall f | f in fields :: FieldFits(f)
  }

  // ---------------------------------------------------------------------------
  // Encoding

  /**
   * One field as the loop body writes it. Each length is first converted to
   * `uint32_t`, and exactly that many bytes of the string are written.
   */
  function EncodeField(f: Field): Bytes
  {
    var nameLength := Wrap32(|f.name|);
    var valueLength := Wrap32(|f.value|);
    EncodeU32(nameLength) + f.name[..nameLength] + EncodeU32(valueLength) + f.value[..valueLength]
  }

  /** The fields one after another, in list order. */
  function EncodeFields(fields: FieldArray): Bytes
  {
    if fields == [] then [] else EncodeField(fields[0]) + EncodeFields(fields[1..])
  }

  /** The whole record: the count converted to `uint32_t`, then every field. */
  function Encode(fields: FieldArray): Bytes
  {
    EncodeU32(Wrap32(|fields|)) + EncodeFields(fields)
  }

  /** Bytes one field takes: two length prefixes, the name and the value. */
  function FieldSize(f: Field): nat
  {
    4 + |f.name| + 4 + |f.value|
  }

  /** Bytes the fields take after the count. */
  function Footprint(fields: FieldArray): nat
  {
    if fields == [] then 0 else FieldSize(fields[0]) + Footprint(fields[1..])
  }

  /** An encoded field that fits takes exactly its size. */
  lemma EncodeFieldLength(f: Field)
    requires FieldFits(f)
    ensures |EncodeField(f)| == FieldSize(f)
  {
  }

  /**
   * The layout of one encoded field, read from the front: its name length, the
   * name, its value length, the value, and nothing else.
   */
  lemma FieldLayout(f: Field)
    requires FieldFits(f)
    ensures |EncodeField(f)| == FieldSize(f)
    ensures EncodeField(f) == EncodeU32(|f.name|) + f.name + EncodeU32(|f.value|) + f.value
  {
    assert f.name[..|f.name|] == f.name && f.value[..|f.value|] == f.value;
  }

  /** Appending a field appends its encoding: the loop's step. */
  lemma {:induction false} EncodeFieldsAppend(fields: FieldArray, f: Field)
    ensures EncodeFields(fields + [f]) == EncodeFields(fields) + EncodeField(f)
  {
    if fields == [] {
      assert [] + [f] == [f];
      assert [f][1..] == [];
    } else {
      assert (fields + [f])[1..] == fields[1..] + [f];
      EncodeFieldsAppend(fields[1..], f);
    }
  }

  /** The bytes for the first `i + 1` fields extend those for the first `i`. */
  lemma EncodePrefixStep(header: Bytes, fields: FieldArray, i: nat)
    requires i < |fields|
    ensures header + EncodeFields(fields[..i + 1]) == header + EncodeFields(fields[..i]) + EncodeField(fields[i])
  {
    assert fields[..i + 1] == fields[..i] + [fields[i]];
    EncodeFieldsAppend(fields[..i], fields[i]);
  }

  /** The fields part is exactly as long as the fields' footprint. */
  lemma {:induction false} EncodeFieldsLength(fields: FieldArray)
    requires forall f | f in fields :: FieldFits(f)
    ensures |EncodeFields(fields)| == Footprint(fields)
  {
    if fields != [] {
      EncodeFieldLength(fields[0]);
      EncodeFieldsLength(fields[1..]);
    }
  }

  /** The encoded length is `4 + sum over the fields of (4 + |name| + 4 + |value|)`. */
  lemma EncodedLength(fields: FieldArray)
    requires Fits(fields)
    ensures |Encode(fields)| == 4 + Footprint(fields)
  {
    EncodeFieldsLength(fields);
  }

  /** The first 4 bytes hold the field count. */
  lemma EncodedCount(fields: FieldArray)
    requires Fits(fields)
    ensures |Encode(fields)| >= 4
    ensures Encode(fields)[..4] == EncodeU32(|fields|)
    ensures DecodeU32(Encode(fields)[..4]) == |fields|
  {
    var e := Encode(fields);
    assert e[..4] == EncodeU32(|fields|);
    U32DecodeEncode(|fields|);
  }

  /** Footprint of a prefix grows by one field's size per field. */
  lemma {:induction false} FootprintPrefix(fields: FieldArray, i: nat)
    requires i < |fields|
    ensures Footprint(fields[..i + 1]) == Footprint(fields[..i]) + FieldSize(fields[i])
  {
    if i == 0 {
      assert fields[..1][1..] == [];
    } else {
      assert fields[..i + 1][1..] == fields[1..][..i];
      assert fields[..i][1..] == fields[1..][..i - 1];
      FootprintPrefix(fields[1..], i - 1);
    }
  }

  /**
   * Field `f`, encoded, starts at position `p` of `data`: its name length, its
   * name, its value length and its value are there, one after another.
   */
  predicate FieldAt(data: Bytes, p: nat, f: Field)
  {
    var n, v := |f.name|, |f.value|;
    && FieldFits(f)
    && p + FieldSize(f) <= |data|
    && data[p..p + 4] == EncodeU32(n)
    && data[p + 4..p + 4 + n] == f.name
    && data[p + 4 + n..p + 8 + n] == EncodeU32(v)
    && data[p + 8 + n..p + FieldSize(f)] == f.value
  }

  /** The fields, encoded, start at position `p` of `data`, one right after another. */
  predicate FieldsAt(data: Bytes, p: nat, fields: FieldArray)
    decreases fields, 1
  {
    fields == [] || FieldsAtCons(data, p, fields)
  }
  /**
   * The non-empty case of `FieldsAt`: the first field, then the rest after it.
   * It is a separate predicate, like `ReadIteration` below, so that the verifier
   * unfolds the run one field at a time.
   */
  predicate FieldsAtCons(data: Bytes, p: nat, fields: FieldArray)
    requires fields != []
    decreases fields, 0
  {
    FieldAt(data, p, fields[0]) && FieldsAt(data, p + FieldSize(fields[0]), fields[1..])
  }

  /** An encoded field placed anywhere in a byte string is found there. */
  lemma FieldAtConcat(before: Bytes, f: Field, after: Bytes)
    requires FieldFits(f)
    ensures FieldAt(before + EncodeField(f) + after, |before|, f)
  {
    FieldLayout(f);
    PiecesAt(before, EncodeU32(|f.name|), f.name, EncodeU32(|f.value|), f.value, after);
  }

  /** Encoded fields placed after any bytes are found there, in list order. */
  lemma {:induction false} FieldsAtConcat(before: Bytes, fields: FieldArray)
    requires forall f | f in fields :: FieldFits(f)
    ensures FieldsAt(before + EncodeFields(fields), |before|, fields)
    decreases fields
  {
    if fields != [] {
      var f, rest := fields[0], fields[1..];
      var head, tail := EncodeField(f), EncodeFields(rest);
      EncodeFieldLength(f);
      AppendAssoc(before, head, tail);
      FieldAtConcat(before, f, tail);
      FieldsAtConcat(before + head, rest);
    }
  }

  /** Every field of a record is found in its encoding, in list order, right after the count. */
  lemma EncodedFields(fields: FieldArray)
    requires Fits(fields)
    ensures FieldsAt(Encode(fields), 4, fields)
  {
    FieldsAtConcat(EncodeU32(Wrap32(|fields|)), fields);
  }

  /** Where encoded fields are found, field `i` is found after the footprint of those before it. */
  lemma {:induction false} FieldsAtIndex(data: Bytes, p: nat, fields: FieldArray, i: nat)
    requires FieldsAt(data, p, fields)
    requires i < |fields|
    ensures FieldAt(data, p + Footprint(fields[..i]), fields[i])
    decreases i
  {
    if i > 0 {
      var rest := fields[1..];
      FieldsAtIndex(data, p + FieldSize(fields[0]), rest, i - 1);
      assert rest[i - 1] == fields[i];
      assert fields[..i][1..] == rest[..i - 1];
    }
  }

  /**
   * Fields are written in list order: field `i`'s name length, name, value
   * length and value follow the count and the fields before it.
   */
  lemma EncodedFieldAt(fields: FieldArray, i: nat)
    requires Fits(fields)
    requires i < |fields|
    ensures FieldAt(Encode(fields), 4 + Footprint(fields[..i]), fields[i])
  {
    EncodedFields(fields);
    FieldsAtIndex(Encode(fields), 4, fields, i);
  }

  // ---------------------------------------------------------------------------
  // Decoding, as the reading code computes it

  /** `uint32_t x = 0;` followed by a 4-byte `read` into `x`. */
  function ReadU32(st: InState): (r: (nat, InState))
    requires st.Valid()
    ensures r.0 < U32_LIMIT && r.1.Valid() && r.1.data == st.data
  {
    var (raw, st') := ReadInto(st, Zeros(4));
    (DecodeU32(raw), st')
  }

  /**
   * A length, then a buffer of that many zero bytes read into: how the loop
   * body reads the name, and then the value.
   */
  function ReadString(st: InState): (r: (Bytes, InState))
    requires st.Valid()
    ensures r.1.Valid() && r.1.data == st.data
    ensures st.failed ==> r == ([], st)
  {
    var (length, st1) := ReadU32(st);
    ReadInto(st1, Zeros(length))
  }

  /** One iteration of the reading loop: the name, the value, and the resulting pair. */
  function ReadField(st: InState): (r: (Field, InState))
    requires st.Valid()
    ensures r.1.Valid() && r.1.data == st.data
    ensures st.failed ==> r == (Field([], []), st)
  {
    var (name, st1) := ReadString(st);
    var (value, st2) := ReadString(st1);
    (Field(name, value), st2)
  }

  /** The last `n` iterations of the reading loop, each appending the field it read. */
  function ReadFields(st: InState, n: nat): (r: (FieldArray, InState))
    requires st.Valid()
    ensures |r.0| == n
    ensures r.1.Valid() && r.1.data == st.data
    decreases n, 2
  {
    if n == 0 then ([], st) else ReadIteration(st, n)
  }

  /**
   * With `n > 0` iterations left: one iteration, then the remaining `n - 1`.
   * `ReadFields`, `ReadIteration` and `ReadIterationBody` are three functions
   * rather than one so that the verifier unfolds the loop one iteration at a time.
   */
  function ReadIteration(st: InState, n: nat): (r: (FieldArray, InState))
    requires st.Valid() && n > 0
    ensures |r.0| == n
    ensures r.1.Valid() && r.1.data == st.data
    decreases n, 1
  {
    ReadIterationBody(st, n)
  }

  /** The loop body: read one field and put it in front of what the remaining iterations read. */
  function ReadIterationBody(st: InState, n: nat): (r: (FieldArray, InState))
    requires st.Valid() && n > 0
    ensures |r.0| == n
    ensures r.1.Valid() && r.1.data == st.data
    decreases n, 0
  {
    var (f, st1) := ReadField(st);
    var (rest, st2) := ReadFields(st1, n - 1);
    ([f] + rest, st2)
  }

  /** An iteration that reads `f` appends it in front of what the remaining ones read. */
  lemma ReadIterationStep(st: InState, n: nat, f: Field, st1: InState)
    requires st.Valid() && n > 0
    requires ReadField(st) == (f, st1)
    ensures st1.Valid()
    ensures ReadIteration(st, n) == ([f] + ReadFields(st1, n - 1).0, ReadFields(st1, n - 1).1)
  {
    assert ReadIteration(st, n) == ReadIterationBody(st, n);
  }

  /** The reading code on `s`: read the count, then that many fields. */
  function ParseRun(s: Bytes): (r: (FieldArray, InState))
    ensures r.1.Valid() && r.1.data == s
  {
    var (numFields, st) := ReadU32(Open(s));
    ReadFields(st, numFields)
  }

  /** The field list `ParseValue` returns for `s`. */
  function Parse(s: Bytes): FieldArray
  {
    ParseRun(s).0
  }

  /**
   * Once a read has failed, every further iteration appends an empty pair:
   * each length stays 0 and each buffer stays empty.
   */
  lemma {:induction false} ReadAfterFailure(st: InState, n: nat)
    requires st.Valid() && st.failed
    ensures ReadFields(st, n).1 == st
    ensures forall i | 0 <= i < n :: ReadFields(st, n).0[i] == Field([], [])
  {
    if n > 0 {
      ReadAfterFailure(st, n - 1);
      assert ReadU32(st) == (0, st);
      assert Zeros(0) == [];
      assert ReadField(st) == (Field([], []), st);
      ReadIterationStep(st, n, Field([], []), st);
    }
  }

  /** Reading the 4 bytes of `n` gives `n` and moves past them. */
  lemma ReadU32At(st: InState, n: nat)
    requires st.Valid() && !st.failed && n < U32_LIMIT
    requires st.pos + 4 <= |st.data| && st.data[st.pos..st.pos + 4] == EncodeU32(n)
    ensures ReadU32(st) == (n, st.(pos := st.pos + 4))
  {
    U32DecodeEncode(n);
  }

  /** Reading where a length-prefixed string is found gives it back and moves past it. */
  lemma ReadStringAt(st: InState, s: Bytes)
    requires st.Valid() && !st.failed && |s| < U32_LIMIT
    requires st.pos + 4 + |s| <= |st.data|
    requires st.data[st.pos..st.pos + 4] == EncodeU32(|s|)
    requires st.data[st.pos + 4..st.pos + 4 + |s|] == s
    ensures ReadString(st) == (s, st.(pos := st.pos + 4 + |s|))
  {
    ReadU32At(st, |s|);
  }

  /** Reading where an encoded field is found gives the field back and moves past it. */
  lemma ReadFieldAt(st: InState, f: Field)
    requires st.Valid() && !st.failed
    requires FieldAt(st.data, st.pos, f)
    ensures ReadField(st) == (f, st.(pos := st.pos + FieldSize(f)))
  {
    var p, n := st.pos, |f.name|;
    ReadStringAt(st, f.name);
    ReadStringAt(st.(pos := p + 4 + n), f.value);
  }

  /**
   * With `n` iterations left where field `f` is found, the first iteration
   * reads `f` and the remaining ones continue right after it.
   */
  lemma ReadFieldsAtStep(st: InState, f: Field, n: nat)
    requires st.Valid() && !st.failed && n > 0
    requires FieldAt(st.data, st.pos, f)
    ensures var st1 := st.(pos := st.pos + FieldSize(f));
      st1.Valid() && ReadFields(st, n) == ([f] + ReadFields(st1, n - 1).0, ReadFields(st1, n - 1).1)
  {
    ReadFieldAt(st, f);
    ReadIterationStep(st, n, f, st.(pos := st.pos + FieldSize(f)));
  }

  /** Reading where encoded fields are found gives them back, in order, and moves past them. */
  lemma {:induction false} ReadFieldsAt(st: InState, fields: FieldArray)
    requires st.Valid() && !st.failed
    requires FieldsAt(st.data, st.pos, fields)
    ensures ReadFields(st, |fields|) == (fields, st.(pos := st.pos + Footprint(fields)))
    decreases fields
  {
    if fields == [] {
      assert st.(pos := st.pos + 0) == st;
    } else {
      var f, rest := fields[0], fields[1..];
      var st1 := st.(pos := st.pos + FieldSize(f));
      ReadFieldsAt(st1, rest);
      ReadFieldsAtStep(st, f, |fields|);
      assert st1.(pos := st1.pos + Footprint(rest)) == st.(pos := st.pos + Footprint(fields));
      assert [f] + rest == fields;
    }
  }

  /**
   * A byte string that starts with a count and holds that many encoded fields
   * right after it parses to exactly those fields. The stream stops right after
   * the last field: any bytes after it are left unread.
   */
  lemma ParseFieldsAt(s: Bytes, fields: FieldArray)
    requires |fields| < U32_LIMIT && 4 <= |s|
    requires s[..4] == EncodeU32(|fields|)
    requires FieldsAt(s, 4, fields)
    ensures ParseRun(s) == (fields, InState(s, 4 + Footprint(fields), false))
  {
    ReadU32At(Open(s), |fields|);
    ReadFieldsAt(Open(s).(pos := 4), fields);
  }

  /**
   * Round trip: parsing an encoded record gives back exactly the fields, in
   * order and with every byte of every name and value, and the stream ends
   * exactly at the end of the encoding without having failed.
   */
  lemma RoundTrip(fields: FieldArray)
    requires Fits(fields)
    ensures ParseRun(Encode(fields)) == (fields, InState(Encode(fields), |Encode(fields)|, false))
    ensures Parse(Encode(fields)) == fields
  {
    EncodedCount(fields);
    EncodedLength(fields);
    EncodedFields(fields);
    ParseFieldsAt(Encode(fields), fields);
  }

  /** Distinct records have distinct encodings. */
  lemma EncodeInjective(a: FieldArray, b: FieldArray)
    requires Fits(a) && Fits(b)
    requires Encode(a) == Encode(b)
    ensures a == b
  {
    RoundTrip(a);
    RoundTrip(b);
  }

  /** Reading a cut-off copy of `data` where a field is found and cut makes one of its four reads fail. */
  lemma ReadTruncatedField(st: InState, data: Bytes, f: Field)
    requires st.Valid() && !st.failed
    requires FieldAt(data, st.pos, f)
    requires st.data <= data && |st.data| < st.pos + FieldSize(f)
    ensures ReadField(st).1.failed
  {
    var p, n := st.pos, |f.name|;
    if p + 4 <= |st.data| {
      PrefixWindow(st.data, data, p, p + 4);
      ReadU32At(st, n);
      var st1 := st.(pos := p + 4);
      if p + 4 + n <= |st.data| {
        var st2 := st.(pos := p + 4 + n);
        assert ReadInto(st1, Zeros(n)).1 == st2;
        if p + 8 + n <= |st.data| {
          PrefixWindow(st.data, data, p + 4 + n, p + 8 + n);
          ReadU32At(st2, |f.value|);
        }
      }
    }
  }

  /** A cut-off copy of `data` holds every field found in `data` that ends before the cut. */
  lemma FieldAtPrefix(a: Bytes, data: Bytes, p: nat, f: Field)
    requires FieldAt(data, p, f)
    requires a <= data && p + FieldSize(f) <= |a|
    ensures FieldAt(a, p, f)
  {
    var n := |f.name|;
    PrefixWindow(a, data, p, p + 4);
    PrefixWindow(a, data, p + 4, p + 4 + n);
    PrefixWindow(a, data, p + 4 + n, p + 8 + n);
    PrefixWindow(a, data, p + 8 + n, p + FieldSize(f));
  }

  /** With `n` iterations left, reading a copy of `data` cut inside field `f` fails the reading loop. */
  lemma ReadTruncatedStep(st: InState, data: Bytes, f: Field, n: nat)
    requires st.Valid() && !st.failed && n > 0
    requires FieldAt(data, st.pos, f)
    requires st.data <= data && |st.data| < st.pos + FieldSize(f)
    ensures ReadFields(st, n).1.failed
  {
    var (g, st1) := ReadField(st);
    ReadTruncatedField(st, data, f);
    ReadAfterFailure(st1, n - 1);
    ReadIterationStep(st, n, g, st1);
  }

  /**
   * With `n` iterations left, reading a copy of `data` that holds all of field
   * `f` reads `f` and leaves the rest to continue right after it.
   */
  lemma ReadPrefixStep(st: InState, data: Bytes, f: Field, n: nat)
    requires st.Valid() && !st.failed && n > 0
    requires FieldAt(data, st.pos, f)
    requires st.data <= data && st.pos + FieldSize(f) <= |st.data|
    ensures var st1 := st.(pos := st.pos + FieldSize(f));
      st1.Valid() && ReadFields(st, n) == ([f] + ReadFields(st1, n - 1).0, ReadFields(st1, n - 1).1)
  {
    FieldAtPrefix(st.data, data, st.pos, f);
    ReadFieldsAtStep(st, f, n);
  }

  /**
   * Reading a copy of `data` cut before the end of the fields found in it
   * makes the reading loop's stream fail.
   */
  lemma {:induction false} ReadTruncatedFields(st: InState, data: Bytes, fields: FieldArray)
    requires st.Valid() && !st.failed
    requires FieldsAt(data, st.pos, fields)
    requires st.data <= data && |st.data| < st.pos + Footprint(fields)
    ensures ReadFields(st, |fields|).1.failed
    decreases fields
  {
    var f := fields[0];
    if |st.data| < st.pos + FieldSize(f) {
      ReadTruncatedStep(st, data, f, |fields|);
    } else {
      ReadTruncatedFields(st.(pos := st.pos + FieldSize(f)), data, fields[1..]);
      ReadPrefixStep(st, data, f, |fields|);
    }
  }

  /**
   * Every strict prefix of an encoding (including the empty one) runs out of
   * bytes before all declared lengths are satisfied, so the stream's fail flag
   * is set by the end of the reading code.
   */
  lemma TruncatedInputFails(fields: FieldArray, m: nat)
    requires Fits(fields)
    requires m < |Encode(fields)|
    ensures ParseRun(Encode(fields)[..m]).1.failed
  {
    var e := Encode(fields);
    var s := e[..m];
    EncodedCount(fields);
    EncodedLength(fields);
    var (numFields, st) := ReadU32(Open(s));
    if m < 4 {
      ReadAfterFailure(st, numFields);
    } else {
      assert s[..4] == e[..4];
      assert numFields == |fields|;
      EncodedFields(fields);
      ReadTruncatedFields(st, e, fields);
    }
  }

  /** One field with an empty name and an empty value encodes to 12 bytes: the count 1, then two zero lengths. */
  lemma OneEmptyFieldEncoding()
    ensures Encode([Field([], [])]) == [1, 0, 0, 0, 0, 0, 0, 0, 0, 0, 0, 0]
  {
    assert EncodeFields([Field([], [])]) == EncodeField(Field([], [])) + EncodeFields([]);
  }

  /**
   * The count 1 alone: the name length cannot be read, so the stream fails, and
   * the iteration appends the pair its zero-initialised lengths leave, two empty strings.
   */
  lemma CountOnlyParse()
    ensures ParseRun([1, 0, 0, 0]).1.failed
    ensures Parse([1, 0, 0, 0]) == [Field([], [])]
  {
    var s: Bytes := [1, 0, 0, 0];
    var st := Open(s).(pos := 4);
    assert ReadU32(Open(s)) == (1, st);
    var failedAt := st.(failed := true);
    assert ReadU32(st) == (0, failedAt);
    assert ReadField(st) == (Field([], []), failedAt);
    ReadIterationStep(st, 1, Field([], []), failedAt);
  }

  /**
   * A truncated value is not told apart from a complete one: the reading code
   * never looks at the fail flag. The 4-byte prefix of the encoding of one empty
   * field fails the stream, yet it decodes to exactly the record encoded.
   */
  lemma TruncationUndetected()
    ensures var e := Encode([Field([], [])]);
      && |e| == 12 && e[..4] == [1, 0, 0, 0]
      && ParseRun(e[..4]).1.failed
      && Parse(e[..4]) == Parse(e) == [Field([], [])]
  {
    var e := Encode([Field([], [])]);
    OneEmptyFieldEncoding();
    assert e[..4] == [1, 0, 0, 0];
    CountOnlyParse();
    RoundTrip([Field([], [])]);
  }

  /**
   * On every input, the reading code returns as many fields as the count in the
   * first 4 bytes says, bytes missing from those 4 reading as zero.
   */
  lemma ParseLength(s: Bytes)
    ensures |s| >= 4 ==> |Parse(s)| == DecodeU32(s[..4])
    ensures |s| < 4 ==> |Parse(s)| == DecodeU32(s + Zeros(4 - |s|))
  {
    if |s| < 4 {
      assert ReadInto(Open(s), Zeros(4)).0 == s + Zeros(4 - |s|);
    }
  }

  /**
   * Four bytes of 0xff alone make the reading code run 2^32 - 1 iterations and
   * return that many fields, all empty pairs after the first failed read.
   */
  lemma LargestCountParse()
    ensures |Parse([0xff, 0xff, 0xff, 0xff])| == U32_LIMIT - 1
  {
    ParseLength([0xff, 0xff, 0xff, 0xff]);
  }

  /** The empty record is the 4-byte count 0, and it parses back to no fields. */
  lemma EmptyRecord()
    ensures Encode([]) == [0, 0, 0, 0]
    ensures Parse([0, 0, 0, 0]) == []
  {
    RoundTrip([]);
  }

  // ---------------------------------------------------------------------------
  // The two functions of the program

  /** The four writes of one loop iteration append the field's encoding. */
  lemma WriteFieldPieces(before: Bytes, f: Field)
    ensures var n, v := Wrap32(|f.name|), Wrap32(|f.value|);
      before + EncodeU32(n)[..4] + f.name[..n] + EncodeU32(v)[..4] + f.value[..v]
        == before + EncodeField(f)
  {
    var n, v := Wrap32(|f.name|), Wrap32(|f.value|);
    assert EncodeU32(n)[..4] == EncodeU32(n) && EncodeU32(v)[..4] == EncodeU32(v);
  }

  /** `SerializeValue`: writes the count and then every field to an output stream. */
  method SerializeValue(fields: FieldArray) returns (s: Bytes)
    ensures s == Encode(fields)
  {
    var oss := new OutputStream();
    var numFields := Wrap32(|fields|);
    oss.Write(EncodeU32(numFields), 4);
    for i := 0 to |fields|
      invariant oss.buf == EncodeU32(numFields) + EncodeFields(fields[..i])
    {
      var field := fields[i];
      ghost var before := oss.buf;
      var nameLength := Wrap32(|field.name|);
      var valueLength := Wrap32(|field.value|);
      oss.Write(EncodeU32(nameLength), 4);
      oss.Write(field.name, nameLength);
      oss.Write(EncodeU32(valueLength), 4);
      oss.Write(field.value, valueLength);
      WriteFieldPieces(before, field);
      EncodePrefixStep(EncodeU32(numFields), fields, i);
    }
    assert fields[..|fields|] == fields;
    s := oss.buf;
  }

  /** `ParseValue`: reads the count and then that many fields from an input stream. */
  method ParseValue(valueStr: Bytes) returns (fields: FieldArray)
    ensures fields == Parse(valueStr)
  {
    fields := [];
    var iss := new InputStream(valueStr);
    var raw := iss.Read(Zeros(4));
    var numFields := DecodeU32(raw);
    ghost var start := iss.State();
    var i: nat := 0;
    while i < numFields
      invariant i <= numFields
      invariant iss.State().Valid()
      invariant fields + ReadFields(iss.State(), numFields - i).0 == ReadFields(start, numFields).0
    {
      ghost var before := iss.State();
      raw := iss.Read(Zeros(4));
      var nameLength := DecodeU32(raw);
      var fieldName := iss.Read(Zeros(nameLength));
      raw := iss.Read(Zeros(4));
      var valueLength := DecodeU32(raw);
      var fieldValue := iss.Read(Zeros(valueLength));
      assert (Field(fieldName, fieldValue), iss.State()) == ReadField(before);
      ReadIterationStep(before, numFields - i, Field(fieldName, fieldValue), iss.State());
      fields := fields + [Field(fieldName, fieldValue)];
      i := i + 1;
    }
  }
}
