/** Successive calls of `save` on one store: the store value of a key is
    the concatenation of every batch's tokens for it, in the order the
    batches were merged, and can be read back into the full history. */
module History {
  import opened Wrappers
  import opened Text
  import opened Entry
  import opened Collector

  /** The arguments of one `save` call: the payload lines, the polled
      target and the timestamp taken at the start of the call. */
  datatype Batch = Batch(data: seq<Line>, host: string, port: nat, now: nat)

  function SaveBatch(db: Store, b: Batch): Store {
    Save(db, b.data, b.host, b.port, b.now)
  }

  /** The store after `save` has run on each batch in turn. */
  function SaveAll(db: Store, batches: seq<Batch>): Store
    decreases |batches|
  {
    if |batches| == 0 then db else SaveAll(SaveBatch(db, batches[0]), batches[1..])
  }

  /** Reference definition: every sample recorded for key `k`, batch by
      batch, each batch's in line order. */
  function HistoryOf(batches: seq<Batch>, k: string): seq<Sample> {
    if |batches| == 0 then []
    else
      var b := batches[0];
      SamplesFor(Body(b.data), k, b.host, b.port, b.now) + HistoryOf(batches[1..], k)
  }

  /** Merging batch B1 then batch B2: each key holds the result of B1
      followed by B2's tokens; nothing of B1 is reordered or overwritten. */
  lemma SaveTwice(db: Store, b1: Batch, b2: Batch, k: string)
    ensures var r1 := SaveBatch(db, b1);
      Lookup(SaveBatch(r1, b2), k) == Lookup(r1, k) + EncodeEntry(SamplesFor(Body(b2.data), k, b2.host, b2.port, b2.now))
  {
  }

  /** After any number of merges, a key's value is its initial value
      followed by the tokens of its whole history, in merge order. */
  lemma {:induction false} SaveAllAt(db: Store, batches: seq<Batch>, k: string)
    ensures Lookup(SaveAll(db, batches), k) == Lookup(db, k) + EncodeEntry(HistoryOf(batches, k))
    decreases |batches|
  {
    if |batches| == 0 {
      assert EncodeEntry([]) == [];
    } else {
      var b := batches[0];
      var r1 := SaveBatch(db, b);
      var here := SamplesFor(Body(b.data), k, b.host, b.port, b.now);
      var later := HistoryOf(batches[1..], k);
      SaveAllAt(r1, batches[1..], k);
      assert Lookup(r1, k) == Lookup(db, k) + EncodeEntry(here);
      EncodeEntryAppend(here, later);
      ConcatAssoc(Lookup(db, k), EncodeEntry(here), EncodeEntry(later));
    }
  }

  /** Hosts with no colon and no whitespace give tokens that can be told apart. */
  predicate ReadableHost(h: string) {
    NoSpace(h) && forall i :: 0 <= i < |h| ==> h[i] != ':'
  }

  lemma {:induction false} HistoryReadable(batches: seq<Batch>, k: string)
    requires forall j :: 0 <= j < |batches| ==> ReadableHost(batches[j].host)
    ensures forall i :: 0 <= i < |HistoryOf(batches, k)| ==> Readable(HistoryOf(batches, k)[i])
    decreases |batches|
  {
    if |batches| > 0 {
      HistoryReadable(batches[1..], k);
      var b := batches[0];
      var here := SamplesFor(Body(b.data), k, b.host, b.port, b.now);
      var h := HistoryOf(batches, k);
      assert h == here + HistoryOf(batches[1..], k);
      forall i | 0 <= i < |h| ensures Readable(h[i]) {
        if i < |here| {
          assert h[i] == here[i];
        } else {
          assert h[i] == HistoryOf(batches[1..], k)[i - |here|];
        }
      }
    }
  }

  /** Nothing is lost: starting from an empty store, every key's value
      decodes back into exactly the samples recorded for it, in order. */
  lemma SaveAllLossless(batches: seq<Batch>, k: string)
    requires forall j :: 0 <= j < |batches| ==> ReadableHost(batches[j].host)
    ensures DecodeEntry(Lookup(SaveAll(map[], batches), k)) == Some(HistoryOf(batches, k))
  {
    var h := HistoryOf(batches, k);
    assert Lookup(SaveAll(map[], batches), k) == EncodeEntry(h) by {
      SaveAllAt(map[], batches, k);
      assert Lookup(map[], k) == [];
    }
    assert forall i :: 0 <= i < |h| ==> Readable(h[i]) by {
      HistoryReadable(batches, k);
    }
    EntryRoundTrip(h);
  }
}
