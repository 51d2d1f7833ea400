/**
 * Counter sampling (CounterSampler.cs): the fixed `countersamples` schema,
 * the rows one sampling pass produces, and the Oracle-safe column names.
 *
 * Sampling a counter is a foreign call; a pass takes the samples it returned,
 * `None` where the sample was null. `string.GetHashCode` is a parameter.
 */
module CounterSampling {
  import opened Wrappers

  /** A 32-bit signed integer, as `string.GetHashCode` returns. */
  newtype int32 = x: int | -0x8000_0000 <= x < 0x8000_0000

  const TableName: string := "countersamples"

  /** The longest column name Oracle accepts. */
  const MaxColumnNameLength: nat := 30
  /** How much of a long name is kept before the hash. */
  const KeptPrefixLength: nat := 20

  // ---------------------------------------------------------------------
  // Truncate and the Oracle column names
  // ---------------------------------------------------------------------

  /**
   * `Truncate`: null and empty strings come back as they are, a string no
   * longer than `maxLength` too, a longer one is cut to its first
   * `maxLength` characters. `Substring` rejects a negative length, so
   * callers must not ask for one when a cut happens.
   */
  function Truncate(value: Option<string>, maxLength: int): (r: Option<string>)
    requires value.Some? && value.value != [] && |value.value| > maxLength ==> maxLength >= 0
    ensures value.None? ==> r.None?
    ensures value.Some? ==> r.Some? && r.value <= value.value
    ensures value.Some? && |value.value| <= maxLength ==> r == value
    ensures value.Some? && |value.value| > maxLength && value.value != [] ==> |r.value| == maxLength
  {
    if value.None? || value.value == [] then value
    else if |value.value| <= maxLength then value
    else Some(value.value[..maxLength])
  }

  /** `c` is one of `0`-`9`, `a`-`f`. */
  predicate IsLowerHex(c: char) {
    '0' <= c <= '9' || 'a' <= c <= 'f'
  }

  /** The lowercase hex digit for `d`. */
  function HexDigit(d: nat): (c: char)
    requires d < 16
    ensures IsLowerHex(c)
  {
    var digits := "0123456789abcdef";
    assert forall k :: 0 <= k < 16 ==> IsLowerHex(digits[k]);
    digits[d]
  }

  /** The value of a lowercase hex digit; other characters count as 0. */
  function DigitValue(c: char): (d: nat)
    ensures d < 16
  {
    if '0' <= c <= '9' then (c - '0') as nat
    else if 'a' <= c <= 'f' then (c - 'a') as nat + 10
    else 0
  }

  lemma DigitValueOfHexDigit(d: nat)
    requires d < 16
    ensures DigitValue(HexDigit(d)) == d
  {
    var digits := "0123456789abcdef";
    assert HexDigit(d) == digits[d];
    if d < 10 {
      assert digits[d] == '0' + d as char by {
        assert digits[..10] == "0123456789";
      }
    } else {
      assert digits[d] == 'a' + (d - 10) as char by {
        assert digits[10..] == "abcdef";
      }
    }
  }

  /** The last `n` hex digits of `u`, most significant first, zero-padded. */
  function HexDigits(u: nat, n: nat): (s: string)
    ensures |s| == n
    ensures forall k :: 0 <= k < n ==> IsLowerHex(s[k])
  {
    if n == 0 then [] else HexDigits(u / 16, n - 1) + [HexDigit(u % 16)]
  }

  /** The value of a string of hex digits, most significant first. */
  function ParseHex(s: string): nat {
    if s == [] then 0 else ParseHex(s[..|s| - 1]) * 16 + DigitValue(s[|s| - 1])
  }

  function Pow16(n: nat): (p: nat)
    ensures p >= 1
  {
    if n == 0 then 1 else 16 * Pow16(n - 1)
  }

  /** `n` hex digits hold every number below `16^n`, and parse back to it. */
  lemma {:induction false} HexDigitsRoundTrip(u: nat, n: nat)
    requires u < Pow16(n)
    ensures ParseHex(HexDigits(u, n)) == u
  {
    if n > 0 {
      var s := HexDigits(u, n);
      assert s[..|s| - 1] == HexDigits(u / 16, n - 1);
      assert u / 16 < Pow16(n - 1);
      HexDigitsRoundTrip(u / 16, n - 1);
      DigitValueOfHexDigit(u % 16);
    }
  }

  const TwoTo32: nat := 0x1_0000_0000

  lemma EightHexDigits()
    ensures Pow16(8) == TwoTo32
  {
    assert Pow16(2) == 256;
    assert Pow16(4) == 65536 by {
      assert Pow16(3) == 4096;
    }
    assert Pow16(6) == 16777216 by {
      assert Pow16(5) == 1048576;
    }
    assert Pow16(7) == 268435456;
  }

  /** `h.ToString("x8")`: the 32-bit two's-complement pattern as eight lowercase hex digits. */
  function Hex8(h: int32): (s: string)
    ensures |s| == 8
    ensures forall k :: 0 <= k < 8 ==> IsLowerHex(s[k])
  {
    HexDigits(if h < 0 then h as int + TwoTo32 else h as nat, 8)
  }

  /** Reads a 32-bit two's-complement pattern back as a signed number. */
  function Signed32(u: nat): int {
    if u >= 0x8000_0000 then u - TwoTo32 else u
  }

  /** The hash written into a long column name can be read back from it. */
  lemma Hex8RoundTrip(h: int32)
    ensures Signed32(ParseHex(Hex8(h))) == h as int
  {
    EightHexDigits();
    HexDigitsRoundTrip(if h < 0 then h as int + TwoTo32 else h as nat, 8);
  }

  /**
   * `toOracleColumnName`: a name of at most 30 characters is kept; a longer
   * one becomes its first 20 characters, '_' and the eight hex digits of its
   * hash, 29 characters in all, from which the hash can be read back.
   */
  function ToOracleColumnName(value: string, hashCode: string -> int32): (r: string)
    ensures |r| <= MaxColumnNameLength
    ensures |value| <= MaxColumnNameLength ==> r == value
    ensures |value| > MaxColumnNameLength ==>
      |r| == 29 && r[..KeptPrefixLength] == value[..KeptPrefixLength] && r[KeptPrefixLength] == '_' &&
      r[KeptPrefixLength + 1..] == Hex8(hashCode(value)) &&
      Signed32(ParseHex(r[KeptPrefixLength + 1..])) == hashCode(value) as int
  {
    if |value| <= MaxColumnNameLength then value
    else
      var hashVal := Hex8(hashCode(value));
      Hex8RoundTrip(hashCode(value));
      var r := Truncate(Some(value), KeptPrefixLength).value + "_" + hashVal;
      assert r[KeptPrefixLength + 1..] == hashVal;
      r
  }

  /**
   * Two long names share a column only when they agree on their first 20
   * characters and on their hashes.
   */
  lemma OracleNameCollision(a: string, b: string, hashCode: string -> int32)
    requires |a| > MaxColumnNameLength && |b| > MaxColumnNameLength
    requires ToOracleColumnName(a, hashCode) == ToOracleColumnName(b, hashCode)
    ensures a[..KeptPrefixLength] == b[..KeptPrefixLength] && hashCode(a) == hashCode(b)
  {
  }

  // ---------------------------------------------------------------------
  // The counter-samples table
  // ---------------------------------------------------------------------

  /** A column: its name and its .NET type name, `None` for `TableHelper.addColumn`'s default. */
  datatype Column = Column(name: string, typeName: Option<string>)

  /** A `DataTable` reduced to its name and its ordered columns. */
  class DataTable {
    const tableName: string
    var columns: seq<Column>

    constructor (tableName: string)
      ensures this.tableName == tableName && columns == []
    {
      this.tableName := tableName;
      columns := [];
    }

    /** `TableHelper.addColumn`: appends a column. */
    method AddColumn(name: string, typeName: Option<string>)
      modifies this
      ensures columns == old(columns) + [Column(name, typeName)]
    {
      columns := columns + [Column(name, typeName)];
    }
  }

  /** The columns of `countersamples`, in order. */
  const CounterSamplesColumns: seq<Column> := [
    Column("timestamp", Some("System.DateTime")),
    Column("machine", None),
    Column("category", None),
    Column("instance", None),
    Column("name", None),
    Column("value", Some("System.Double"))]

  function ColumnNames(columns: seq<Column>): set<string> {
    set c | c in columns :: c.name
  }

  /** `makeCounterSamplesTable`: a fresh `countersamples` table with its six columns in order. */
  method MakeCounterSamplesTable() returns (table: DataTable)
    ensures fresh(table)
    ensures table.tableName == TableName && table.columns == CounterSamplesColumns
  {
    table := new DataTable(TableName);
    table.AddColumn("timestamp", Some("System.DateTime"));
    table.AddColumn("machine", None);
    table.AddColumn("category", None);
    table.AddColumn("instance", None);
    table.AddColumn("name", None);
    table.AddColumn("value", Some("System.Double"));
  }

  // ---------------------------------------------------------------------
  // Sampling
  // ---------------------------------------------------------------------

  /** The counter a sample belongs to. */
  datatype Counter = Counter(hostName: string, category: string, counter: string, instance: Option<string>)

  /** A sample: its counter and the sampled value. */
  datatype CounterSample = CounterSample(counter: Counter, sampleValue: real)

  /** A cell: the poll time in ticks, a possibly null string, or a number. */
  datatype Value = Timestamp(ticks: int) | Text(text: Option<string>) | Number(number: real)

  /** A row, by column name. */
  type Row = map<string, Value>

  /**
   * `MapToSchema` with static column names: every column of `countersamples`
   * but the timestamp, which `SampleAll` adds, filled from the counter's
   * metadata and the sampled value; a counter without an instance leaves the
   * instance null.
   */
  function MapToSchema(sample: CounterSample): (r: Row)
    ensures r.Keys == {"machine", "category", "name", "value", "instance"}
    ensures "value" in r && r["value"] == Number(sample.sampleValue)
    ensures "instance" in r && r["instance"] == Text(sample.counter.instance)
    ensures "machine" in r && r["machine"] == Text(Some(sample.counter.hostName))
    ensures "category" in r && r["category"] == Text(Some(sample.counter.category))
    ensures "name" in r && r["name"] == Text(Some(sample.counter.counter))
    ensures "timestamp" !in r
  {
    ColumnNamesApart();
    var counter := sample.counter;
    map[
      "machine" := Text(Some(counter.hostName)),
      "category" := Text(Some(counter.category)),
      "name" := Text(Some(counter.counter)),
      "value" := Number(sample.sampleValue),
      "instance" := Text(counter.instance)]
  }

  /** The row `SampleAll` adds for a sample: the mapped row stamped with the poll time. */
  function SampleRow(sample: CounterSample, pollTimestamp: int): Row {
    MapToSchema(sample)["timestamp" := Timestamp(pollTimestamp)]
  }

  /** A sampled row fills exactly the columns of `countersamples`. */
  lemma SampleRowFitsSchema(sample: CounterSample, pollTimestamp: int)
    ensures SampleRow(sample, pollTimestamp).Keys == ColumnNames(CounterSamplesColumns)
  {
    SchemaNames();
  }

  /** The six column names differ pairwise: they start with different letters. */
  lemma ColumnNamesApart()
    ensures "timestamp" !in {"machine", "category", "name", "value", "instance"}
    ensures "machine" !in {"category", "name", "value", "instance"}
    ensures "category" !in {"name", "value", "instance"}
    ensures "name" !in {"value", "instance"}
    ensures "value" != "instance"
  {
    assert "timestamp"[0] == 't' && "machine"[0] == 'm' && "category"[0] == 'c';
    assert "name"[0] == 'n' && "value"[0] == 'v' && "instance"[0] == 'i';
  }

  /** The names of the six columns of `countersamples`. */
  lemma SchemaNames()
    ensures ColumnNames(CounterSamplesColumns) == {"timestamp", "machine", "category", "instance", "name", "value"}
  {
    assert CounterSamplesColumns[0].name == "timestamp";
    assert CounterSamplesColumns[1].name == "machine";
    assert CounterSamplesColumns[2].name == "category";
    assert CounterSamplesColumns[3].name == "instance";
    assert CounterSamplesColumns[4].name == "name";
    assert CounterSamplesColumns[5].name == "value";
  }

  /** How many samples failed. */
  function NullCount(samples: seq<Option<CounterSample>>): (n: nat)
    ensures n <= |samples|
  {
    if samples == [] then 0
    else NullCount(samples[..|samples| - 1]) + (if samples[|samples| - 1].None? then 1 else 0)
  }

  /**
   * The rows of a pass: one per non-null sample, in counter order, every one
   * stamped with the same poll time.
   */
  function SampledRows(samples: seq<Option<CounterSample>>, pollTimestamp: int): (rows: seq<Row>)
    ensures |rows| == |samples| - NullCount(samples)
    ensures forall r :: r in rows ==> "timestamp" in r && r["timestamp"] == Timestamp(pollTimestamp)
  {
    if samples == [] then []
    else
      var rest := SampledRows(samples[..|samples| - 1], pollTimestamp);
      match samples[|samples| - 1]
      case None => rest
      case Some(sample) => rest + [SampleRow(sample, pollTimestamp)]
  }

  /** The rows of consecutive runs of samples follow one another. */
  lemma {:induction false} SampledRowsAppend(a: seq<Option<CounterSample>>, b: seq<Option<CounterSample>>, pollTimestamp: int)
    ensures SampledRows(a + b, pollTimestamp) == SampledRows(a, pollTimestamp) + SampledRows(b, pollTimestamp)
  {
    if b != [] {
      var b' := b[..|b| - 1];
      assert (a + b)[..|a + b| - 1] == a + b';
      SampledRowsAppend(a, b', pollTimestamp);
    } else {
      assert a + b == a;
    }
  }

  /** A null sample adds no row; any other adds its own row. */
  lemma SampledRowsOfOne(sample: Option<CounterSample>, pollTimestamp: int)
    ensures sample.None? ==> SampledRows([sample], pollTimestamp) == []
    ensures sample.Some? ==> SampledRows([sample], pollTimestamp) == [SampleRow(sample.value, pollTimestamp)]
  {
    assert [sample][..0] == [];
  }

  /** Every row of a pass fills exactly the columns of `countersamples`. */
  lemma {:induction false} SampledRowsFitSchema(samples: seq<Option<CounterSample>>, pollTimestamp: int)
    ensures forall r :: r in SampledRows(samples, pollTimestamp) ==> r.Keys == ColumnNames(CounterSamplesColumns)
  {
    if samples != [] {
      SampledRowsFitSchema(samples[..|samples| - 1], pollTimestamp);
      if samples[|samples| - 1].Some? {
        SampleRowFitsSchema(samples[|samples| - 1].value, pollTimestamp);
      }
    }
  }

  class CounterSampler {
    const counters: seq<Counter>
    const schema: DataTable

    /** The sampler keeps its counters and builds the static `countersamples` schema. */
    constructor (counterCollection: seq<Counter>)
      ensures counters == counterCollection
      ensures schema.tableName == TableName && schema.columns == CounterSamplesColumns
    {
      counters := counterCollection;
      var table := MakeCounterSamplesTable();
      schema := table;
    }

    /**
     * `SampleAll`: `samples[i]` is what sampling `counters[i]` returned.
     * The rows are those of `SampledRows`, and the failure count is the
     * number of null samples.
     */
    method SampleAll(samples: seq<Option<CounterSample>>, pollTimestamp: int) returns (rows: seq<Row>, numFailed: int)
      requires |samples| == |counters|
      ensures rows == SampledRows(samples, pollTimestamp)
      ensures numFailed == NullCount(samples)
    {
      rows := [];
      for i := 0 to |counters|
        invariant rows == SampledRows(samples[..i], pollTimestamp)
      {
        assert samples[..i + 1][..i] == samples[..i];
        var counterSample := samples[i];
        if counterSample.None? {
          // A null sample counts as a failure and yields no row.
          continue;
        }
        var row := MapToSchema(counterSample.value);
        row := row["timestamp" := Timestamp(pollTimestamp)];
        rows := rows + [row];
      }
      assert samples[..|counters|] == samples;
      numFailed := |counters| - |rows|;
    }
  }
}
