/**
 The skip/count window of an injection, read declaratively: every record has a verdict
 that depends on the tables before it, the counted ones are numbered, and the window is
 a range of those numbers. int64 wrap-around of the numbers is part of the statement.
 */
module Window {
  import opened Bytes
  import opened Int64
  import opened MrtWire
  import opened Injection

  // -------------------------------------------------------- verdicts of a dump

  /** The peers of the most recent PEER_INDEX_TABLE before position i. */
  function TableAt(recs: seq<Record>, i: nat): Option<seq<Peer>>
    requires i <= |recs|
  {
    if i == 0 then None
    else if IsTable(recs[i - 1]) then Some(ReadPeerTable(recs[i - 1].body).value.peers)
    else TableAt(recs, i - 1)
  }

  predicate IsTable(r: Record)
    ensures IsTable(r) ==> ReadPeerTable(r.body).Some?
  {
    r.header.typ == TABLE_DUMP_V2 && r.header.subType == PEER_INDEX_TABLE && ReadPeerTable(r.body).Some?
  }

  /** Position j holds the last PEER_INDEX_TABLE before position i. */
  predicate IsLatestTable(recs: seq<Record>, i: nat, j: int)
    requires i <= |recs|
  {
    0 <= j < i && IsTable(recs[j]) && forall k | j < k < i :: !IsTable(recs[k])
  }

  lemma LatestTableStep(recs: seq<Record>, i: nat, j: int)
    requires 0 < i <= |recs|
    ensures IsLatestTable(recs, i, j)
            <==> if IsTable(recs[i - 1]) then j == i - 1 else IsLatestTable(recs, i - 1, j)
  {
  }

  /** TableAt reads it off the last such record before i, if there is one. */
  lemma {:induction false} TableAtIsMostRecent(recs: seq<Record>, i: nat, j: int)
    requires i <= |recs|
    ensures IsLatestTable(recs, i, j) ==> TableAt(recs, i) == Some(ReadPeerTable(recs[j].body).value.peers)
    ensures TableAt(recs, i) == None ==> !IsLatestTable(recs, i, j)
    ensures TableAt(recs, i) == None <==> forall k | 0 <= k < i :: !IsTable(recs[k])
  {
    if i > 0 {
      LatestTableStep(recs, i, j);
      TableAtIsMostRecent(recs, i - 1, j);
    }
  }

  function VerdictAt(env: Env, opts: Opts, recs: seq<Record>, i: nat): Verdict
    requires i < |recs|
  {
    Judge(env, opts, TableAt(recs, i), recs[i])
  }

  /** What becomes of each record, if the ones before it let the process get there. */
  function Verdicts(env: Env, opts: Opts, recs: seq<Record>): (vs: seq<Verdict>)
    ensures |vs| == |recs| && forall i | 0 <= i < |recs| :: vs[i] == VerdictAt(env, opts, recs, i)
  {
    seq(|recs|, i requires 0 <= i < |recs| => VerdictAt(env, opts, recs, i))
  }

  /** The process from position i on, as a function of the verdicts alone. */
  function Process(opts: Opts, vs: seq<Verdict>, clean: bool, i: nat, idx: int64): Outcome
    requires i <= |vs|
    decreases |vs| - i
  {
    if i == |vs| then Outcome([], if clean then Clean else Faulted(BrokenInput))
    else match vs[i]
      case Fatal(e) => Outcome([], Faulted(e))
      case Counted(b) =>
        var later := if Wrap64(idx + 1) == StopIndex(opts) then Outcome([], Clean)
                     else Process(opts, vs, clean, i + 1, Wrap64(idx + 1));
        Outcome(Offered(opts, idx, b) + later.batches, later.end)
      case _ => Process(opts, vs, clean, i + 1, idx)
  }

  /** The verdict of one record in terms of the tables before it. */
  lemma TableStep(env: Env, opts: Opts, recs: seq<Record>, i: nat)
    requires i < |recs|
    ensures var v := VerdictAt(env, opts, recs, i);
            TableAt(recs, i + 1) == if v.NewTable? then Some(v.peers) else TableAt(recs, i)
  {
  }

  lemma FrameStep(recs: seq<Record>, clean: bool, i: nat, input: seq<byte>)
    requires i < |recs| && Frame(input) == Framing(recs[i..], clean)
    ensures ReadRecord(input).Got? && ReadRecord(input).record == recs[i]
    ensures Frame(ReadRecord(input).rest) == Framing(recs[i + 1..], clean)
  {
    assert recs[i..][1..] == recs[i + 1..];
  }

  lemma FrameEnd(recs: seq<Record>, clean: bool, input: seq<byte>)
    requires Frame(input) == Framing(recs[|recs|..], clean)
    ensures ReadRecord(input) == if clean then AtEnd else Broken
  {
    assert recs[|recs|..] == [];
  }

  /** Reading on from position i of the bytes is processing the verdicts from i on. */
  lemma {:induction false} InjectIsProcess(
      env: Env, opts: Opts, recs: seq<Record>, clean: bool, i: nat, idx: int64, input: seq<byte>)
    requires i <= |recs| && Frame(input) == Framing(recs[i..], clean)
    ensures Inject(env, opts, TableAt(recs, i), idx, input) == Process(opts, Verdicts(env, opts, recs), clean, i, idx)
    decreases |recs| - i
  {
    if i == |recs| {
      FrameEnd(recs, clean, input);
    } else {
      FrameStep(recs, clean, i, input);
      TableStep(env, opts, recs, i);
      var rest := ReadRecord(input).rest;
      if VerdictAt(env, opts, recs, i).Counted? {
        InjectIsProcess(env, opts, recs, clean, i + 1, Wrap64(idx + 1), rest);
      } else {
        InjectIsProcess(env, opts, recs, clean, i + 1, idx, rest);
      }
    }
  }

  // ---------------------------------------------------------------- the window

  /** The batches of the records before position i that count, in record order. */
  function Batches(vs: seq<Verdict>, i: nat): (bs: seq<Batch>)
    requires i <= |vs|
    ensures |bs| <= i
  {
    if i == 0 then []
    else if vs[i - 1].Counted? then Batches(vs, i - 1) + [vs[i - 1].batch]
    else Batches(vs, i - 1)
  }

  /** Position of the first fatal record from i on, or the number of records. */
  function FirstFatal(vs: seq<Verdict>, i: nat): (f: nat)
    requires i <= |vs|
    ensures i <= f <= |vs|
    ensures f < |vs| ==> vs[f].Fatal?
    ensures forall j | i <= j < f :: !vs[j].Fatal?
    decreases |vs| - i
  {
    if i == |vs| || vs[i].Fatal? then i else FirstFatal(vs, i + 1)
  }

  /** How many counted records are looked at: the wrapped stop index, read as 1..2^64. */
  function Limit(opts: Opts): (n: nat)
    ensures 1 <= n <= TWO_TO_THE_64
  {
    (opts.count + opts.skip - 1) % TWO_TO_THE_64 + 1
  }

  /** Of the counted batches, those whose (wrapped) index reaches `skip`. */
  function Selected(bs: seq<Batch>, skip: int64): seq<Batch> {
    if bs == [] then []
    else
      var n := |bs| - 1;
      Selected(bs[..n], skip) + (if Wrap64(n) >= skip then [bs[n]] else [])
  }

  lemma StopsAtLimit(opts: Opts, k: nat)
    requires k < Limit(opts)
    ensures Wrap64(Wrap64(k) + 1) == Wrap64(k + 1)
    ensures Wrap64(k + 1) == StopIndex(opts) <==> k + 1 == Limit(opts)
  {
    WrapOfWrap(k, 1);
    LimitWraps(opts);
    if Wrap64(k + 1) == StopIndex(opts) {
      WrapIsInjective(k + 1, Limit(opts));
    }
  }

  lemma LimitWraps(opts: Opts)
    ensures Wrap64(Limit(opts)) == StopIndex(opts)
    ensures Limit(opts) == if StopIndex(opts) >= 1 then StopIndex(opts) else StopIndex(opts) + TWO_TO_THE_64
  {
    var sum := opts.count + opts.skip;
    var q := (sum - 1) / TWO_TO_THE_64;
    var p := WrapQuotient(sum);
    WrapIs(Limit(opts), StopIndex(opts), p - q);
  }

  lemma {:induction false} BatchesExtend(vs: seq<Verdict>, i: nat, j: nat)
    requires i <= j <= |vs|
    ensures Batches(vs, i) <= Batches(vs, j)
  {
    if i < j {
      BatchesExtend(vs, i, j - 1);
    }
  }

  /** The counted batches that are looked at, given that the first fatal record is at f. */
  function Cut(opts: Opts, vs: seq<Verdict>, f: nat): seq<Batch>
    requires f <= |vs|
  {
    var all := Batches(vs, f);
    if |all| < Limit(opts) then all else all[..Limit(opts)]
  }

  lemma SelectedStep(bs: seq<Batch>, b: Batch, opts: Opts)
    ensures Selected(bs + [b], opts.skip) == Selected(bs, opts.skip) + Offered(opts, Wrap64(|bs|), b)
  {
    assert (bs + [b])[..|bs|] == bs;
  }

  /** How the process ends, given that the first fatal record is at f. */
  function EndAt(opts: Opts, vs: seq<Verdict>, clean: bool, f: nat): End
    requires f <= |vs| && (f < |vs| ==> vs[f].Fatal?)
  {
    if |Batches(vs, f)| >= Limit(opts) then Clean
    else if f < |vs| then Faulted(vs[f].error)
    else if clean then Clean
    else Faulted(BrokenInput)
  }

  /** The outcome o adds, to the batches before position i, exactly what the window still lacks. */
  ghost predicate Completes(opts: Opts, vs: seq<Verdict>, clean: bool, i: nat, o: Outcome)
    requires i <= |vs|
  {
    var f := FirstFatal(vs, i);
    && Selected(Batches(vs, i), opts.skip) + o.batches == Selected(Cut(opts, vs, f), opts.skip)
    && o.end == EndAt(opts, vs, clean, f)
  }

  lemma LimitCompletes(opts: Opts, vs: seq<Verdict>, clean: bool, i: nat)
    requires i <= |vs| && |Batches(vs, i)| == Limit(opts)
    ensures Completes(opts, vs, clean, i, Outcome([], Clean))
  {
    BatchesExtend(vs, i, FirstFatal(vs, i));
    assert Cut(opts, vs, FirstFatal(vs, i)) == Batches(vs, i);
  }

  lemma Regroup(a: seq<Batch>, b: seq<Batch>, c: seq<Batch>)
    ensures a + (b + c) == a + b + c
  {
  }

  lemma CountedCompletes(opts: Opts, vs: seq<Verdict>, clean: bool, i: nat, b: Batch, later: Outcome)
    requires i < |vs| && vs[i] == Counted(b) && Completes(opts, vs, clean, i + 1, later)
    ensures var now := Offered(opts, Wrap64(|Batches(vs, i)|), b);
            Completes(opts, vs, clean, i, Outcome(now + later.batches, later.end))
  {
    var done := Batches(vs, i);
    SelectedStep(done, b, opts);
    Regroup(Selected(done, opts.skip), Offered(opts, Wrap64(|done|), b), later.batches);
    assert FirstFatal(vs, i) == FirstFatal(vs, i + 1);
  }

  lemma {:induction false} ProcessCompletes(opts: Opts, vs: seq<Verdict>, clean: bool, i: nat, k: nat)
    requires i <= |vs| && |Batches(vs, i)| == k < Limit(opts)
    ensures Completes(opts, vs, clean, i, Process(opts, vs, clean, i, Wrap64(k)))
    decreases |vs| - i
  {
    if i < |vs| && !vs[i].Fatal? {
      if vs[i].Counted? {
        StopsAtLimit(opts, k);
        if k + 1 == Limit(opts) {
          LimitCompletes(opts, vs, clean, i + 1);
          CountedCompletes(opts, vs, clean, i, vs[i].batch, Outcome([], Clean));
        } else {
          ProcessCompletes(opts, vs, clean, i + 1, k + 1);
          CountedCompletes(opts, vs, clean, i, vs[i].batch, Process(opts, vs, clean, i + 1, Wrap64(k + 1)));
        }
      } else {
        ProcessCompletes(opts, vs, clean, i + 1, k);
      }
    }
  }

  /**
   The window, for every input, every option and every overflow: the batches handed over
   are the counted ones before the first fatal record, cut at the limit, from index `skip`
   on. The process ends normally if the limit is reached first, or if the input is framed to
   its end without a fatal record; otherwise it ends with the error of the first fatal record,
   or of the framing.
   */
  lemma WindowOf(env: Env, opts: Opts, input: seq<byte>)
    ensures var vs := Verdicts(env, opts, Frame(input).records);
            var f := FirstFatal(vs, 0);
            var o := Inject(env, opts, None, 0, input);
            && o.batches == Selected(Cut(opts, vs, f), opts.skip)
            && o.end == EndAt(opts, vs, Frame(input).clean, f)
  {
    var recs := Frame(input).records;
    assert recs[0..] == recs;
    InjectIsProcess(env, opts, recs, Frame(input).clean, 0, 0, input);
    WrapIs(0, 0, 0);
    ProcessCompletes(opts, Verdicts(env, opts, recs), Frame(input).clean, 0, 0);
  }

  /**
   A record with an extended timestamp ends the process exactly if the process gets to it: no
   record before it is fatal, and the count does not stop the process first.
   */
  lemma ExtendedTimestampAborts(env: Env, opts: Opts, recs: seq<Record>)
    requires AllWellFormed(recs) && FirstExtended(recs) < |recs|
    ensures var vs := Verdicts(env, opts, recs[..FirstExtended(recs)]);
            Inject(env, opts, None, 0, SerializeRecords(recs)).end == Faulted(BrokenInput)
            <==> FirstFatal(vs, 0) == |vs| && |Batches(vs, |vs|)| < Limit(opts)
  {
    FrameOfSerialized(recs);
    WindowOf(env, opts, SerializeRecords(recs));
    var vs := Verdicts(env, opts, recs[..FirstExtended(recs)]);
    if FirstFatal(vs, 0) < |vs| {
      FatalIsNotBroken(env, opts, TableAt(recs[..FirstExtended(recs)], FirstFatal(vs, 0)), recs[FirstFatal(vs, 0)]);
    }
  }

  /** One such record, with an empty body, makes a dump that always ends so. */
  lemma OneExtendedRecordAborts(env: Env, opts: Opts)
    ensures var r := Record(Header(0, BGP4MP_ET, 4, 0, 7), []);
            WellFormed(r) && Inject(env, opts, None, 0, SerializeRecords([r])).end == Faulted(BrokenInput)
  {
    ExtendedTimestampAborts(env, opts, [Record(Header(0, BGP4MP_ET, 4, 0, 7), [])]);
  }

  lemma FatalIsNotBroken(env: Env, opts: Opts, peers: Option<seq<Peer>>, r: Record)
    ensures Judge(env, opts, peers, r) != Fatal(BrokenInput)
  {
    var rib := env.rib(r.header.subType, r.body);
    if rib.Some? && peers.Some? {
      PathsAreNotBroken(env, opts, r.header.subType in {2, 8}, peers.value, rib.value, |rib.value.entries|);
    }
  }

  lemma {:induction false} PathsAreNotBroken(env: Env, opts: Opts, v4: bool, peers: seq<Peer>, rib: Rib, n: nat)
    requires n <= |rib.entries|
    ensures PathsOf(env, opts, v4, peers, rib, n) != Err(BrokenInput)
  {
    if n > 0 {
      PathsAreNotBroken(env, opts, v4, peers, rib, n - 1);
    }
  }

  function Clamp(n: int, hi: nat): (r: nat)
    ensures r <= hi
  {
    if n < 0 then 0 else if n < hi then n else hi
  }

  lemma SelectedGrows(bs: seq<Batch>, k: nat, skip: int64)
    requires 0 < k <= |bs| && k <= TWO_TO_THE_63
    ensures Selected(bs[..k], skip)
            == Selected(bs[..k - 1], skip) + (if k - 1 >= skip then [bs[k - 1]] else [])
  {
    assert bs[..k][..k - 1] == bs[..k - 1];
    WrapIs(k - 1, k - 1, 0);
  }

  lemma SliceGrows(bs: seq<Batch>, k: nat, skip: int64)
    requires 0 < k <= |bs|
    ensures bs[Clamp(skip, k)..k]
            == bs[Clamp(skip, k - 1)..k - 1] + (if k - 1 >= skip then [bs[k - 1]] else [])
  {
  }

  lemma {:induction false} SelectedIsSuffix(bs: seq<Batch>, k: nat, skip: int64)
    requires k <= |bs| && k <= TWO_TO_THE_63
    ensures Selected(bs[..k], skip) == bs[Clamp(skip, k)..k]
  {
    if k > 0 {
      SelectedIsSuffix(bs, k - 1, skip);
      SelectedGrows(bs, k, skip);
      SliceGrows(bs, k, skip);
    }
  }

  /** One past the last counted record that is looked at, out of `total`. */
  function WindowEnd(opts: Opts, total: nat): (hi: nat)
    ensures hi <= total
  {
    if StopIndex(opts) >= 1 then Clamp(StopIndex(opts), total) else total
  }

  /** How many of `total` counted records are injected. */
  function Injected(opts: Opts, total: nat): nat {
    var hi := WindowEnd(opts, total);
    hi - Clamp(opts.skip, hi)
  }

  lemma SelectedOfCut(opts: Opts, vs: seq<Verdict>, f: nat)
    requires f <= |vs| && f < TWO_TO_THE_63
    ensures var all := Batches(vs, f);
            var hi := WindowEnd(opts, |all|);
            Selected(Cut(opts, vs, f), opts.skip) == all[Clamp(opts.skip, hi)..hi]
  {
    var all := Batches(vs, f);
    LimitWraps(opts);
    assert Cut(opts, vs, f) == all[..WindowEnd(opts, |all|)];
    SelectedIsSuffix(all, WindowEnd(opts, |all|), opts.skip);
  }

  /** The window as a slice, for any dump of fewer than 2^63 records. */
  lemma WindowIsSlice(env: Env, opts: Opts, input: seq<byte>)
    requires |Frame(input).records| < TWO_TO_THE_63
    ensures var vs := Verdicts(env, opts, Frame(input).records);
            var all := Batches(vs, FirstFatal(vs, 0));
            var hi := WindowEnd(opts, |all|);
            && Inject(env, opts, None, 0, input).batches == all[Clamp(opts.skip, hi)..hi]
            && |Inject(env, opts, None, 0, input).batches| == Injected(opts, |all|)
  {
    var vs := Verdicts(env, opts, Frame(input).records);
    WindowOf(env, opts, input);
    SelectedOfCut(opts, vs, FirstFatal(vs, 0));
  }

  // ---------------------------------------------- where a batch comes from

  predicate Increasing(at: seq<nat>) {
    forall j, k | 0 <= j < k < |at| :: at[j] < at[k]
  }

  /** The positions, among bs, of those batches whose index reaches `skip`. */
  lemma {:induction false} SelectedAt(bs: seq<Batch>, skip: int64) returns (at: seq<nat>)
    ensures |at| == |Selected(bs, skip)| && Increasing(at)
    ensures forall k | 0 <= k < |at| :: at[k] < |bs| && bs[at[k]] == Selected(bs, skip)[k]
  {
    at := [];
    if bs != [] {
      var n := |bs| - 1;
      at := SelectedAt(bs[..n], skip);
      at := at + if Wrap64(n) >= skip then [n] else [];
    }
  }

  /** The positions of the records that count, below n. */
  lemma {:induction false} BatchesAt(vs: seq<Verdict>, n: nat) returns (at: seq<nat>)
    requires n <= |vs|
    ensures |at| == |Batches(vs, n)| && Increasing(at)
    ensures forall k | 0 <= k < |at| :: at[k] < n && vs[at[k]] == Counted(Batches(vs, n)[k])
  {
    at := [];
    if n > 0 {
      at := BatchesAt(vs, n - 1);
      at := at + if vs[n - 1].Counted? then [n - 1] else [];
    }
  }

  lemma Compose(outer: seq<nat>, inner: seq<nat>) returns (at: seq<nat>)
    requires Increasing(outer) && Increasing(inner) && forall k | 0 <= k < |inner| :: inner[k] < |outer|
    ensures |at| == |inner| && Increasing(at) && forall k | 0 <= k < |at| :: at[k] == outer[inner[k]]
  {
    at := seq(|inner|, k requires 0 <= k < |inner| => outer[inner[k]]);
  }

  /** The batches handed over are those of counted records, whose positions increase. */
  lemma HandedOverFrom(env: Env, opts: Opts, input: seq<byte>) returns (at: seq<nat>)
    ensures |at| == |Inject(env, opts, None, 0, input).batches| && Increasing(at)
    ensures forall k | 0 <= k < |at| ::
              && at[k] < |Frame(input).records|
              && VerdictAt(env, opts, Frame(input).records, at[k])
                 == Counted(Inject(env, opts, None, 0, input).batches[k])
  {
    var vs := Verdicts(env, opts, Frame(input).records);
    var f := FirstFatal(vs, 0);
    WindowOf(env, opts, input);
    var outer := BatchesAt(vs, f);
    var inner := SelectedAt(Cut(opts, vs, f), opts.skip);
    at := Compose(outer, inner);
  }

  lemma {:induction false} LatestTableExists(recs: seq<Record>, i: nat) returns (j: nat)
    requires i <= |recs| && TableAt(recs, i).Some?
    ensures IsLatestTable(recs, i, j)
  {
    j := i - 1;
    if !IsTable(recs[j]) {
      j := LatestTableExists(recs, i - 1);
      LatestTableStep(recs, i, j);
    }
  }

  /** The path is that of entry e of a record, and carries the AS and the ID of the entry's peer. */
  predicate IsPathOf(env: Env, opts: Opts, peers: seq<Peer>, r: Record, path: Path, e: nat) {
    var rib := env.rib(r.header.subType, r.body);
    && rib.Some? && e < |rib.value.entries|
    && var entry := rib.value.entries[e];
    && entry.peerIndex < |peers|
    && path.sourceAsn == peers[entry.peerIndex].asn && path.sourceId == peers[entry.peerIndex].bgpId
    && (opts.peerAsn != 0 ==> path.sourceAsn == opts.peerAsn)
    && path.nlri == rib.value.prefix && path.family == rib.value.family && path.age == entry.originated
    && path.attrs == AttrsOf(opts, r.header.subType in {2, 8}, rib.value, entry)
  }

  /**
   The paths of a batch are those of entries es of record i, in entry order, with the peers of
   the PEER_INDEX_TABLE at j, which is the latest before i.
   */
  ghost predicate BatchIsAttributed(
      env: Env, opts: Opts, recs: seq<Record>, b: Batch, i: nat, j: nat, es: seq<nat>)
  {
    && i < |recs| && IsLatestTable(recs, i, j) && Wanted(opts, recs[i])
    && |es| == |b| && Increasing(es)
    && forall k | 0 <= k < |b| ::
         IsPathOf(env, opts, ReadPeerTable(recs[j].body).value.peers, recs[i], b[k], es[k])
  }

  /** With the table in force, a batch is made of the survivors of its record. */
  lemma CountedOfSurvivors(env: Env, opts: Opts, recs: seq<Record>, i: nat, b: Batch, peers: seq<Peer>)
      returns (es: seq<nat>)
    requires i < |recs| && VerdictAt(env, opts, recs, i) == Counted(b) && TableAt(recs, i) == Some(peers)
    ensures Wanted(opts, recs[i]) && |es| == |b| && Increasing(es)
    ensures forall k | 0 <= k < |b| :: IsPathOf(env, opts, peers, recs[i], b[k], es[k])
  {
    var r := recs[i];
    RolesIff(env, opts, Some(peers), r);
    var rib := env.rib(r.header.subType, r.body).value;
    Attribution(env, opts, r.header.subType in {2, 8}, peers, rib);
    SurvivorsAreExact(opts, peers, rib.entries, |rib.entries|);
    es := Survivors(opts, peers, rib.entries, |rib.entries|)[..|b|];
  }

  lemma CountedIsAttributed(env: Env, opts: Opts, recs: seq<Record>, i: nat, b: Batch) returns (j: nat, es: seq<nat>)
    requires i < |recs| && VerdictAt(env, opts, recs, i) == Counted(b)
    ensures BatchIsAttributed(env, opts, recs, b, i, j, es)
  {
    RolesIff(env, opts, TableAt(recs, i), recs[i]);
    j := LatestTableExists(recs, i);
    TableAtIsMostRecent(recs, i, j);
    es := CountedOfSurvivors(env, opts, recs, i, b, TableAt(recs, i).value);
  }

  ghost predicate AllAttributed(
      env: Env, opts: Opts, recs: seq<Record>, bs: seq<Batch>, at: seq<nat>, tables: seq<nat>, es: seq<seq<nat>>)
  {
    && |at| == |tables| == |es| == |bs|
    && forall n | 0 <= n < |bs| :: BatchIsAttributed(env, opts, recs, bs[n], at[n], tables[n], es[n])
  }

  lemma {:induction false} CountedAreAttributed(env: Env, opts: Opts, recs: seq<Record>, at: seq<nat>, bs: seq<Batch>)
      returns (tables: seq<nat>, es: seq<seq<nat>>)
    requires |at| == |bs|
    requires forall n | 0 <= n < |at| :: at[n] < |recs| && VerdictAt(env, opts, recs, at[n]) == Counted(bs[n])
    ensures AllAttributed(env, opts, recs, bs, at, tables, es)
  {
    tables, es := [], [];
    if at != [] {
      var n := |at| - 1;
      tables, es := CountedAreAttributed(env, opts, recs, at[..n], bs[..n]);
      var j, entries := CountedIsAttributed(env, opts, recs, at[n], bs[n]);
      tables, es := tables + [j], es + [entries];
    }
  }
}
