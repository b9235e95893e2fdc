/**
 Does `count` mean what it says? "Number of records to inject", after "Number of records to
 skip": the documented number against the number of batches that a dump really leads to.
 */
module Counting {
  import opened Bytes
  import opened Int64
  import opened MrtWire
  import opened NextHops
  import opened Injection
  import opened Window

  /** The most records that a dump of fewer than 2^63 can make count: its first one is a peer table. */
  const MOST: nat := TWO_TO_THE_63 - 2

  /** Out of `total` counted records: a negative skip skips none, a negative count stands for all. */
  function Documented(opts: Opts, total: nat): nat {
    var available := total - Clamp(opts.skip, total);
    if opts.count < 0 then available else Clamp(opts.count, available)
  }

  /** The counted records of a dump up to the first fatal one. */
  function CountedOf(env: Env, opts: Opts, dump: seq<byte>): nat {
    var vs := Verdicts(env, opts, Frame(dump).records);
    |Batches(vs, FirstFatal(vs, 0))|
  }

  /** The documented number of batches comes out of this dump. */
  predicate Honours(env: Env, opts: Opts, dump: seq<byte>) {
    |Inject(env, opts, None, 0, dump).batches| == Documented(opts, CountedOf(env, opts, dump))
  }

  /**
   What the options must be like. Both not negative: at least one record is looked at. A count
   alone negative: the sum does not stop the process, unless there is nothing behind the skip. A
   negative skip, which shortens the count, goes unnoticed only beyond the longest dump.
   */
  predicate CountIsPlain(opts: Opts) {
    var sum := opts.count + opts.skip;
    if opts.count >= 0 && opts.skip >= 0 then sum >= 1
    else if opts.skip >= 0 then sum <= 0 || opts.skip >= MOST
    else if opts.count >= 0 then (if sum >= 1 then sum else opts.count) >= MOST
    else StopIndex(opts) <= 0 || StopIndex(opts) >= MOST
  }

  // -------------------------------------------------- as far as numbers go

  lemma StopIs(opts: Opts)
    ensures var sum := opts.count + opts.skip;
            StopIndex(opts) == if sum >= TWO_TO_THE_63 then sum - TWO_TO_THE_64
                               else if sum < -TWO_TO_THE_63 then sum + TWO_TO_THE_64 else sum
  {
    WrapOfSum(opts.count + opts.skip);
  }

  lemma PlainCountAgrees(opts: Opts, total: nat)
    requires total <= MOST && (CountIsPlain(opts) || total == 0)
    ensures Injected(opts, total) == Documented(opts, total)
  {
    StopIs(opts);
  }

  /** Where the two numbers differ, if they do anywhere. */
  lemma OtherCountDiffers(opts: Opts) returns (total: nat)
    requires !CountIsPlain(opts)
    ensures total <= MOST && Injected(opts, total) != Documented(opts, total)
  {
    StopIs(opts);
    total := if opts.count < 0 && opts.skip >= 0 then opts.skip + 1
             else if StopIndex(opts) >= 1 then StopIndex(opts) + 1
             else opts.count + 1;
  }

  // --------------------------------------------------- no dump counts more

  lemma {:induction false} OneIsNotCounted(vs: seq<Verdict>, n: nat, k: nat)
    requires k < n <= |vs| && !vs[k].Counted?
    ensures |Batches(vs, n)| < n
  {
    if k < n - 1 {
      OneIsNotCounted(vs, n - 1, k);
    }
  }

  lemma CountedAtMost(env: Env, opts: Opts, dump: seq<byte>)
    requires |Frame(dump).records| < TWO_TO_THE_63
    ensures CountedOf(env, opts, dump) <= MOST
    ensures opts.skipV4 && opts.skipV6 ==> CountedOf(env, opts, dump) == 0
  {
    var recs := Frame(dump).records;
    var vs := Verdicts(env, opts, recs);
    var f := FirstFatal(vs, 0);
    if Batches(vs, f) != [] {
      var at := BatchesAt(vs, f);
      var i := at[0];
      RolesIff(env, opts, TableAt(recs, i), recs[i]);
      var j := LatestTableExists(recs, i);
      RolesIff(env, opts, TableAt(recs, j), recs[j]);
      OneIsNotCounted(vs, f, j);
    }
  }

  lemma InjectedIs(env: Env, opts: Opts, dump: seq<byte>)
    requires |Frame(dump).records| < TWO_TO_THE_63
    ensures |Inject(env, opts, None, 0, dump).batches| == Injected(opts, CountedOf(env, opts, dump))
  {
    WindowIsSlice(env, opts, dump);
  }

  // ------------------------------------------------ a dump for every number

  const EMPTY_TABLE := PeerTable([0, 0, 0, 0], [], [])

  const TABLE_RECORD := Record(Header(0, TABLE_DUMP_V2, PEER_INDEX_TABLE, 8, 0), SerializePeerTable(EMPTY_TABLE))

  /** A RIB record of a family that is not skipped, if there is one. */
  function RibRecord(opts: Opts): Record {
    Record(Header(0, TABLE_DUMP_V2, if opts.skipV4 then RIB_IPV6_UNICAST else RIB_IPV4_UNICAST, 0, 0), [])
  }

  /** Decoders under which every RIB record is one without entries. */
  const EMPTY_RIBS := Env((_, _) => Some(Rib(IPv4Unicast, [], [])), _ => true, (_, _) => true, (_, _) => true)

  function SampleRecords(opts: Opts, total: nat): (recs: seq<Record>)
    ensures |recs| == total + 1 && recs[0] == TABLE_RECORD
    ensures forall i | 1 <= i <= total :: recs[i] == RibRecord(opts)
  {
    [TABLE_RECORD] + seq(total, _ => RibRecord(opts))
  }

  lemma SampleIsReadable(opts: Opts, total: nat)
    ensures AllReadable(SampleRecords(opts, total))
  {
    assert |SerializePeerTable(EMPTY_TABLE)| == 8;
  }

  function Sample(opts: Opts, total: nat): seq<byte> {
    SampleIsReadable(opts, total);
    SerializeRecords(SampleRecords(opts, total))
  }

  lemma SampleFrames(opts: Opts, total: nat)
    ensures Frame(Sample(opts, total)) == Framing(SampleRecords(opts, total), true)
  {
    SampleIsReadable(opts, total);
    var recs := SampleRecords(opts, total);
    FrameOfSerialized(recs);
    assert FirstExtended(recs) == |recs| && recs[..|recs|] == recs;
  }

  lemma TableRecordReads()
    ensures IsTable(TABLE_RECORD) && ReadPeerTable(TABLE_RECORD.body) == Some(EMPTY_TABLE)
  {
    PeerTableIff(TABLE_RECORD.body, EMPTY_TABLE);
  }

  lemma {:induction false} SampleTable(opts: Opts, total: nat, i: nat)
    requires 1 <= i <= total + 1
    ensures TableAt(SampleRecords(opts, total), i) == Some([])
  {
    TableRecordReads();
    if i > 1 {
      SampleTable(opts, total, i - 1);
    }
  }

  lemma SampleVerdict(opts: Opts, total: nat, i: nat)
    requires i <= total && !(opts.skipV4 && opts.skipV6)
    ensures var v := VerdictAt(EMPTY_RIBS, opts, SampleRecords(opts, total), i);
            if i == 0 then v.NewTable? else v.Counted?
  {
    var recs := SampleRecords(opts, total);
    RolesIff(EMPTY_RIBS, opts, TableAt(recs, i), recs[i]);
    TableRecordReads();
    if i > 0 {
      SampleTable(opts, total, i);
    }
  }

  lemma {:induction false} SampleBatches(vs: seq<Verdict>, n: nat)
    requires 1 <= n <= |vs| && !vs[0].Counted? && forall i | 1 <= i < n :: vs[i].Counted?
    ensures |Batches(vs, n)| == n - 1
  {
    if n > 1 {
      SampleBatches(vs, n - 1);
    }
  }

  lemma SampleCounts(opts: Opts, total: nat)
    requires !(opts.skipV4 && opts.skipV6)
    ensures Frame(Sample(opts, total)) == Framing(SampleRecords(opts, total), true)
    ensures CountedOf(EMPTY_RIBS, opts, Sample(opts, total)) == total
  {
    SampleFrames(opts, total);
    var vs := Verdicts(EMPTY_RIBS, opts, SampleRecords(opts, total));
    forall i | 0 <= i <= total
      ensures if i == 0 then vs[i].NewTable? else vs[i].Counted?
    {
      SampleVerdict(opts, total, i);
    }
    assert FirstFatal(vs, 0) == |vs|;
    SampleBatches(vs, |vs|);
  }

  lemma SampleInjects(opts: Opts, total: nat)
    requires !(opts.skipV4 && opts.skipV6) && total <= MOST
    ensures |Inject(EMPTY_RIBS, opts, None, 0, Sample(opts, total)).batches| == Injected(opts, total)
  {
    SampleCounts(opts, total);
    InjectedIs(EMPTY_RIBS, opts, Sample(opts, total));
  }

  // ---------------------------------------------------------------- theorem

  lemma PlainCountIsHonoured(env: Env, opts: Opts, dump: seq<byte>)
    requires CountIsPlain(opts) || (opts.skipV4 && opts.skipV6)
    requires |Frame(dump).records| < TWO_TO_THE_63
    ensures Honours(env, opts, dump)
  {
    CountedAtMost(env, opts, dump);
    InjectedIs(env, opts, dump);
    PlainCountAgrees(opts, CountedOf(env, opts, dump));
  }

  lemma OtherCountIsNot(opts: Opts) returns (dump: seq<byte>)
    requires !CountIsPlain(opts) && !(opts.skipV4 && opts.skipV6)
    ensures |Frame(dump).records| < TWO_TO_THE_63 && !Honours(EMPTY_RIBS, opts, dump)
  {
    var total := OtherCountDiffers(opts);
    dump := Sample(opts, total);
    SampleCounts(opts, total);
    SampleInjects(opts, total);
  }

  /**
   Exactly when the documented number of records comes out of every dump, whatever the decoders:
   if the options are plain, or if both families are skipped, so that no record counts at all.
   */
  lemma CountIsHonouredIff(opts: Opts)
    ensures (forall env: Env, dump | |Frame(dump).records| < TWO_TO_THE_63 :: Honours(env, opts, dump))
            <==> CountIsPlain(opts) || (opts.skipV4 && opts.skipV6)
  {
    if CountIsPlain(opts) || (opts.skipV4 && opts.skipV6) {
      forall env: Env, dump | |Frame(dump).records| < TWO_TO_THE_63
        ensures Honours(env, opts, dump)
      {
        PlainCountIsHonoured(env, opts, dump);
      }
    } else {
      var dump := OtherCountIsNot(opts);
    }
  }

  // ------------------------------------------------------------- at its simplest

  /** How many batches a sample leads to. */
  function SentFrom(opts: Opts, total: nat): nat {
    |Inject(EMPTY_RIBS, opts, None, 0, Sample(opts, total)).batches|
  }

  lemma SentFromIs(opts: Opts, total: nat, n: nat)
    requires !(opts.skipV4 && opts.skipV6) && total <= MOST && n == Injected(opts, total)
    ensures SentFrom(opts, total) == n
  {
    SampleInjects(opts, total);
  }

  /**
   From samples of any size: `0` injects everything; `-1 2`, meant for all records after two,
   injects nothing; `5 -2` injects three records.
   */
  lemma CountExamples(opts: Opts, total: nat)
    requires !(opts.skipV4 && opts.skipV6) && 5 <= total <= MOST
    ensures opts.count == 0 && opts.skip == 0 ==> SentFrom(opts, total) == total
    ensures opts.count == -1 && opts.skip == 2 ==> SentFrom(opts, total) == 0
    ensures opts.count == 5 && opts.skip == -2 ==> SentFrom(opts, total) == 3
  {
    var n := Injected(opts, total);
    assert opts.count == 0 && opts.skip == 0 ==> n == total;
    assert opts.count == -1 && opts.skip == 2 ==> n == 0;
    assert opts.count == 5 && opts.skip == -2 ==> n == 3;
    SentFromIs(opts, total, n);
  }
}
