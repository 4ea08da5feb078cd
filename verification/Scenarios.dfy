/** A worked example of `save`: a payload with a two-line header, three
    well-formed lines and one line holding a single word. */
module Scenarios {
  import opened Wrappers
  import opened Utf8
  import opened Text
  import opened Entry
  import opened Collector

  /** Two header lines of any content, then `stackA 5`, `stackB 7`,
      `garbageline` and `stackA 9`. */
  predicate IsPayload(data: seq<Line>) {
    && |data| == 6
    && data[2] == Encode("stackA 5")
    && data[3] == Encode("stackB 7")
    && data[4] == Encode("garbageline")
    && data[5] == Encode("stackA 9")
  }

  /** What the parser makes of the body lines of such a payload. */
  predicate ParsesAsPayload(data: seq<Line>) {
    && |data| == 6
    && ParseLine(data[2]) == Some(("stackA", "5"))
    && ParseLine(data[3]) == Some(("stackB", "7"))
    && ParseLine(data[4]) == None
    && ParseLine(data[5]) == Some(("stackA", "9"))
  }

  lemma LineA5()
    ensures ParseLine(Encode("stackA 5")) == Some(("stackA", "5"))
  {
    assert IsWord("stackA") && IsWord("5");
    assert "stackA 5" == "stackA" + [' '] + "5";
    ParseLinePair("stackA", ' ', "5");
  }

  lemma LineB7()
    ensures ParseLine(Encode("stackB 7")) == Some(("stackB", "7"))
  {
    assert IsWord("stackB") && IsWord("7");
    assert "stackB 7" == "stackB" + [' '] + "7";
    ParseLinePair("stackB", ' ', "7");
  }

  lemma LineA9()
    ensures ParseLine(Encode("stackA 9")) == Some(("stackA", "9"))
  {
    assert IsWord("stackA") && IsWord("9");
    assert "stackA 9" == "stackA" + [' '] + "9";
    ParseLinePair("stackA", ' ', "9");
  }

  lemma LineGarbage()
    ensures ParseLine(Encode("garbageline")) == None
  {
    assert IsWord("garbageline");
    ParseLineSingleWord("garbageline");
  }

  /** The example payload's lines parse as two pairs for `stackA`, one for
      `stackB`, and a dropped line. */
  lemma PayloadParses(data: seq<Line>)
    requires IsPayload(data)
    ensures ParsesAsPayload(data)
  {
    LineA5();
    LineB7();
    LineGarbage();
    LineA9();
  }

  /** One poll into an empty store: `stackA` gets the tokens of its two
      lines in line order, `stackB` the token of its line, and the
      dropped line produces no key. */
  lemma SinglePoll(data: seq<Line>, host: string, port: nat, now: nat)
    requires ParsesAsPayload(data)
    ensures Save(map[], data, host, port, now)
      == map["stackA" := Token(Sample(host, port, now, "5")) + Token(Sample(host, port, now, "9")),
              "stackB" := Token(Sample(host, port, now, "7"))]
  {
    var body := Body(data);
    assert body == data[2..];
    PollBody(body, host, port, now);
  }

  /** The loop over the example's four body lines, step by step. */
  lemma PollBody(body: seq<Line>, host: string, port: nat, now: nat)
    requires |body| == 4
    requires ParseLine(body[0]) == Some(("stackA", "5"))
    requires ParseLine(body[1]) == Some(("stackB", "7"))
    requires ParseLine(body[2]) == None
    requires ParseLine(body[3]) == Some(("stackA", "9"))
    ensures MergeLines(map[], body, host, port, now)
      == map["stackA" := Token(Sample(host, port, now, "5")) + Token(Sample(host, port, now, "9")),
              "stackB" := Token(Sample(host, port, now, "7"))]
  {
    var m2 := map["stackA" := Token(Sample(host, port, now, "5")), "stackB" := Token(Sample(host, port, now, "7"))];
    PollFirstHalf(body, host, port, now);
    assert body[2..][0] == body[2] && body[2..][1] == body[3];
    PollSecondHalf(m2, body[2..], host, port, now);
  }

  /** `stackA 5` then `stackB 7` into an empty store. */
  lemma PollFirstHalf(body: seq<Line>, host: string, port: nat, now: nat)
    requires |body| == 4
    requires ParseLine(body[0]) == Some(("stackA", "5"))
    requires ParseLine(body[1]) == Some(("stackB", "7"))
    ensures MergeLines(map[], body, host, port, now)
      == MergeLines(map["stackA" := Token(Sample(host, port, now, "5")), "stackB" := Token(Sample(host, port, now, "7"))],
                    body[2..], host, port, now)
  {
    var m1 := map["stackA" := Token(Sample(host, port, now, "5"))];
    var m2 := m1["stackB" := Token(Sample(host, port, now, "7"))];
    assert Step(map[], body[0], host, port, now) == m1;
    PollStep(map[], body, host, port, now, m1);
    assert Step(m1, body[1], host, port, now) == m2;
    assert body[1..][0] == body[1] && body[1..][1..] == body[2..];
    PollStep(m1, body[1..], host, port, now, m2);
  }

  /** The dropped line, then `stackA 9`, onto the store of the first half. */
  lemma PollSecondHalf(m2: Store, rest: seq<Line>, host: string, port: nat, now: nat)
    requires m2 == map["stackA" := Token(Sample(host, port, now, "5")), "stackB" := Token(Sample(host, port, now, "7"))]
    requires |rest| == 2
    requires ParseLine(rest[0]) == None
    requires ParseLine(rest[1]) == Some(("stackA", "9"))
    ensures MergeLines(m2, rest, host, port, now)
      == map["stackA" := Token(Sample(host, port, now, "5")) + Token(Sample(host, port, now, "9")),
              "stackB" := Token(Sample(host, port, now, "7"))]
  {
    var m4 := m2["stackA" := Token(Sample(host, port, now, "5")) + Token(Sample(host, port, now, "9"))];
    PollStep(m2, rest, host, port, now, m2);
    assert Step(m2, rest[1], host, port, now) == m4;
    assert rest[1..][0] == rest[1] && rest[1..][1..] == [];
    PollStep(m2, rest[1..], host, port, now, m4);
  }

  /** One turn of the loop: merging `lines` from `db` is merging the rest
      from the store the first line leaves. */
  lemma PollStep(db: Store, lines: seq<Line>, host: string, port: nat, now: nat, next: Store)
    requires |lines| > 0 && Step(db, lines[0], host, port, now) == next
    ensures MergeLines(db, lines, host, port, now) == MergeLines(next, lines[1..], host, port, now)
  {
  }

  lemma StackAFirst(data: seq<Line>, t: nat)
    requires ParsesAsPayload(data)
    ensures Lookup(Save(map[], data, "h1", 9000, t), "stackA")
      == Token(Sample("h1", 9000, t, "5")) + Token(Sample("h1", 9000, t, "9"))
  {
    var r := Save(map[], data, "h1", 9000, t);
    assert r == map["stackA" := Token(Sample("h1", 9000, t, "5")) + Token(Sample("h1", 9000, t, "9")),
                    "stackB" := Token(Sample("h1", 9000, t, "7"))] by {
      SinglePoll(data, "h1", 9000, t);
    }
    assert "stackA" in r;
  }

  lemma StackAAdded(data: seq<Line>, t: nat)
    requires ParsesAsPayload(data)
    ensures EncodeEntry(SamplesFor(Body(data), "stackA", "h1", 9000, t))
      == Token(Sample("h1", 9000, t, "5")) + Token(Sample("h1", 9000, t, "9"))
  {
    StackAFirst(data, t);
    assert Lookup(Save(map[], data, "h1", 9000, t), "stackA")
      == Lookup(map[], "stackA") + EncodeEntry(SamplesFor(Body(data), "stackA", "h1", 9000, t));
  }

  /** Two polls of the same target at times t1 then t2: the second poll's
      tokens come after the first's. */
  lemma RepeatedPoll(data: seq<Line>, t1: nat, t2: nat)
    requires ParsesAsPayload(data)
    ensures var r1 := Save(map[], data, "h1", 9000, t1);
      Lookup(Save(r1, data, "h1", 9000, t2), "stackA")
        == Token(Sample("h1", 9000, t1, "5")) + Token(Sample("h1", 9000, t1, "9"))
         + Token(Sample("h1", 9000, t2, "5")) + Token(Sample("h1", 9000, t2, "9"))
  {
    var r1 := Save(map[], data, "h1", 9000, t1);
    var first := Token(Sample("h1", 9000, t1, "5")) + Token(Sample("h1", 9000, t1, "9"));
    var a, b := Token(Sample("h1", 9000, t2, "5")), Token(Sample("h1", 9000, t2, "9"));
    var added := EncodeEntry(SamplesFor(Body(data), "stackA", "h1", 9000, t2));
    assert Lookup(r1, "stackA") == first by {
      StackAFirst(data, t1);
    }
    assert added == a + b by {
      StackAAdded(data, t2);
    }
    assert Lookup(Save(r1, data, "h1", 9000, t2), "stackA") == Lookup(r1, "stackA") + added;
    ConcatAssoc(first, a, b);
  }
}
