/** The encoding of a store value: one token `host:port:timestamp:value `
    per observation, appended in arrival order, the trailing space of each
    token serving as the delimiter. */
module Entry {
  import opened Wrappers
  import opened Text
  import opened Numerals

  /** One observation of a stack, minus the stack itself (the store key). */
  datatype Sample = Sample(host: string, port: nat, timestamp: nat, value: string)

  /** The token text without its trailing space. */
  function Field(s: Sample): string {
    Join([s.host, Decimal(s.port), Decimal(s.timestamp), s.value], ":")
  }

  /** The token `'{}:{}:{}:{} '.format(host, port, now, value)`. */
  function Token(s: Sample): string {
    Field(s) + " "
  }

  /** A store value holding `samples`, oldest first. */
  function EncodeEntry(samples: seq<Sample>): string {
    if |samples| == 0 then [] else Token(samples[0]) + EncodeEntry(samples[1..])
  }

  /** Reads one token (without its trailing space) back into a sample:
      host, port and timestamp end at the first three colons and the
      value is the rest. */
  function ParseField(f: string): Option<Sample> {
    var parts := SplitOn(f, ":");
    if |parts| < 4 then None
    else match (ParseDecimal(parts[1]), ParseDecimal(parts[2]))
      case (Some(port), Some(timestamp)) => Some(Sample(parts[0], port, timestamp, Join(parts[3..], ":")))
      case _ => None
  }

  function ParseFields(fs: seq<string>): (r: Option<seq<Sample>>)
    ensures r.Some? ==> |r.value| == |fs|
  {
    if |fs| == 0 then Some([])
    else match (ParseField(fs[0]), ParseFields(fs[1..]))
      case (Some(s), Some(rest)) => Some([s] + rest)
      case _ => None
  }

  /** Reads a store value back into its samples. */
  function DecodeEntry(e: string): Option<seq<Sample>> {
    ParseFields(Words(e))
  }

  /** The samples whose tokens can be read back unambiguously: the host
      holds no colon and no whitespace, the value no whitespace (values
      always come out of `str.split()`, so they never do). */
  predicate Readable(s: Sample) {
    NoSpace(s.host) && NoSpace(s.value) && forall i :: 0 <= i < |s.host| ==> s.host[i] != ':'
  }

  lemma EncodeEntrySingle(s: Sample)
    ensures EncodeEntry([s]) == Token(s)
  {
    assert [s][1..] == [];
  }

  /** Appending tokens of two groups of samples is the token string of
      the two groups in order. */
  lemma {:induction false} EncodeEntryAppend(a: seq<Sample>, b: seq<Sample>)
    ensures EncodeEntry(a + b) == EncodeEntry(a) + EncodeEntry(b)
  {
    if |a| > 0 {
      assert (a + b)[1..] == a[1..] + b;
      EncodeEntryAppend(a[1..], b);
    } else {
      assert a + b == b;
    }
  }

  lemma FieldUnfold(s: Sample)
    ensures var d1, d2 := Decimal(s.port), Decimal(s.timestamp);
      Field(s) == s.host + ":" + (d1 + ":" + (d2 + ":" + s.value))
  {
    var d1, d2 := Decimal(s.port), Decimal(s.timestamp);
    var ps := [s.host, d1, d2, s.value];
    assert Join([d2, s.value], ":") == d2 + ":" + s.value by {
      assert [d2, s.value][1..] == [s.value];
    }
    assert Join([d1, d2, s.value], ":") == d1 + ":" + Join([d2, s.value], ":") by {
      assert [d1, d2, s.value][1..] == [d2, s.value];
    }
    assert Join(ps, ":") == s.host + ":" + Join([d1, d2, s.value], ":") by {
      assert ps[1..] == [d1, d2, s.value];
    }
  }

  lemma FieldRoundTrip(s: Sample)
    requires Readable(s)
    ensures ParseField(Field(s)) == Some(s)
  {
    var d1, d2 := Decimal(s.port), Decimal(s.timestamp);
    var tail := d2 + ":" + s.value;
    var mid := d1 + ":" + tail;
    var vs := SplitOn(s.value, ":");
    var parts := SplitOn(Field(s), ":");
    assert parts == [s.host] + ([d1] + ([d2] + vs)) by {
      FieldUnfold(s);
      SplitOnPrefix(s.host, ":", mid);
      SplitOnPrefix(d1, ":", tail);
      SplitOnPrefix(d2, ":", s.value);
    }
    assert |parts| >= 4 && parts[0] == s.host && parts[1] == d1 && parts[2] == d2;
    assert parts[3..] == vs;
    assert Join(vs, ":") == s.value by {
      JoinSplitOn(s.value, ":");
    }
    ParseDecimalOfDecimal(s.port);
    ParseDecimalOfDecimal(s.timestamp);
  }

  lemma FieldIsWord(s: Sample)
    requires Readable(s)
    ensures IsWord(Field(s))
  {
    var d1, d2 := Decimal(s.port), Decimal(s.timestamp);
    assert NoSpace(d1) && NoSpace(d2) && NoSpace(":");
    FieldUnfold(s);
    NoSpaceConcat(d2 + ":", s.value);
    NoSpaceConcat(d2, ":");
    NoSpaceConcat(d1 + ":", d2 + ":" + s.value);
    NoSpaceConcat(d1, ":");
    NoSpaceConcat(s.host + ":", d1 + ":" + (d2 + ":" + s.value));
    NoSpaceConcat(s.host, ":");
  }

  function Fields(samples: seq<Sample>): (r: seq<string>)
    ensures |r| == |samples|
    ensures forall i :: 0 <= i < |r| ==> r[i] == Field(samples[i])
  {
    if |samples| == 0 then [] else [Field(samples[0])] + Fields(samples[1..])
  }

  lemma {:induction false} EncodeEntryIsSpaced(samples: seq<Sample>)
    ensures EncodeEntry(samples) == Spaced(Fields(samples))
  {
    if |samples| > 0 {
      EncodeEntryIsSpaced(samples[1..]);
      assert Fields(samples)[1..] == Fields(samples[1..]);
    }
  }

  lemma {:induction false} ParseFieldsOfFields(samples: seq<Sample>)
    requires forall i :: 0 <= i < |samples| ==> Readable(samples[i])
    ensures ParseFields(Fields(samples)) == Some(samples)
  {
    if |samples| > 0 {
      FieldRoundTrip(samples[0]);
      ParseFieldsOfFields(samples[1..]);
      assert Fields(samples)[1..] == Fields(samples[1..]);
      assert [samples[0]] + samples[1..] == samples;
    }
  }

  /** No information is lost in a store value: decoding it gives back
      every sample in arrival order. */
  lemma EntryRoundTrip(samples: seq<Sample>)
    requires forall i :: 0 <= i < |samples| ==> Readable(samples[i])
    ensures DecodeEntry(EncodeEntry(samples)) == Some(samples)
  {
    EncodeEntryIsSpaced(samples);
    forall i | 0 <= i < |samples| ensures IsWord(Fields(samples)[i]) {
      FieldIsWord(samples[i]);
    }
    WordsOfSpaced(Fields(samples));
    ParseFieldsOfFields(samples);
  }

  /** A single token reads back as the one sample it was made from. */
  lemma TokenRoundTrip(s: Sample)
    requires Readable(s)
    ensures DecodeEntry(Token(s)) == Some([s])
  {
    EncodeEntrySingle(s);
    EntryRoundTrip([s]);
  }

  /** The token spelled out: host, port, timestamp and value separated
      by colons, and one space after the value. */
  lemma TokenText(s: Sample)
    ensures Token(s) == s.host + ":" + Decimal(s.port) + ":" + Decimal(s.timestamp) + ":" + s.value + " "
  {
    FieldUnfold(s);
  }

  /** The token of host `h1`, port 9000, time 17 and value 5. */
  lemma TokenExample()
    ensures Token(Sample("h1", 9000, 17, "5")) == "h1:9000:17:5 "
  {
    var s := Sample("h1", 9000, 17, "5");
    ExampleDecimals();
    TokenText(s);
  }

  lemma ExampleDecimals()
    ensures Decimal(9000) == "9000" && Decimal(17) == "17"
  {
    assert Decimal(9) == "9";
    assert Decimal(90) == "90";
    assert Decimal(900) == "900";
    assert Decimal(1) == "1";
  }
}
