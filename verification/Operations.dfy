/** One operation of the load generator: what it asks of the backend, how its
    outcome is counted, and how the samples of a phase add up. */
module Operations {

  import opened Options

  datatype Kind = Unary | BatchGet | BatchSet | Pipeline

  datatype Workload = ReadOnly | ReadHeavy | Mixed | Origin

  /** The command-line options that matter here; `duration` is in nanoseconds. */
  datatype Setup = Setup(kind: Kind, workload: Workload, batchSize: nat, valueBytes: nat, onePass: bool,
                         workers: nat, rate: nat, duration: nat)

  /** What the start-up checks demand of the options. */
  predicate Valid(o: Setup) { o.batchSize >= 1 && o.workers >= 1 && o.rate >= 1 }

  function Objects(o: Setup): nat { if o.kind.Unary? then 1 else o.batchSize }

  /** Whether operation number `op` writes instead of reading. */
  predicate Writes(o: Setup, op: nat) {
    || o.kind.BatchSet?
    || (o.kind.Unary? && ((o.workload.ReadHeavy? && op % 10 == 0) || (o.workload.Mixed? && op % 2 == 0)))
  }

  datatype Lookup = Lookup(found: bool, equal: bool, refillFails: bool)

  /** How the backend answers: whether a write fails, and what a read returns,
      if it does not fail as a whole. */
  datatype Backend = Backend(writeFails: bool, answer: Option<seq<Lookup>>)

  /** A successful read answers every key. */
  predicate Answers(o: Setup, b: Backend) { b.answer.Some? ==> |b.answer.value| == Objects(o) }

  datatype Sample = Sample(objects: nat, gets: nat, hits: nat, origins: nat, errors: nat, bytes: nat)

  function CountLookup(r: Sample, l: Lookup, o: Setup): Sample {
    if l.found && l.equal then r.(hits := r.hits + 1, bytes := r.bytes + o.valueBytes)
    else if l.found then r.(errors := r.errors + 1)
    else if !o.workload.Origin? then r.(errors := r.errors + 1)
    else r.(origins := r.origins + 1, errors := r.errors + if l.refillFails then 1 else 0)
  }

  function CountLookups(lookups: seq<Lookup>, o: Setup): Sample {
    if lookups == [] then Sample(Objects(o), Objects(o), 0, 0, 0, 0)
    else CountLookup(CountLookups(lookups[..|lookups| - 1], o), lookups[|lookups| - 1], o)
  }

  /** The sample of one operation. */
  function Measure(o: Setup, op: nat, b: Backend): Sample {
    var n := Objects(o);
    if Writes(o, op) then Sample(n, 0, 0, 0, if b.writeFails then n else 0, 0)
    else match b.answer
      case None => Sample(n, n, 0, 0, n, 0)
      case Some(lookups) => CountLookups(lookups, o)
  }

  /** doOperation, from the outcome of its calls. */
  method DoOperation(o: Setup, op: nat, b: Backend) returns (r: Sample)
    requires Answers(o, b)
    ensures r == Measure(o, op, b)
  {
    var n := 1;
    if o.kind.BatchGet? || o.kind.BatchSet? || o.kind.Pipeline? {
      n := o.batchSize;
    }
    r := Sample(n, 0, 0, 0, 0, 0);
    if o.kind.BatchSet? {
      if b.writeFails {
        r := r.(errors := n);
      }
      return;
    }
    if o.kind.Unary? && !o.workload.ReadOnly?
       && ((o.workload.ReadHeavy? && op % 10 == 0) || (o.workload.Mixed? && op % 2 == 0)) {
      if b.writeFails {
        r := r.(errors := 1);
      }
      return;
    }
    r := r.(gets := n);
    if b.answer.None? {
      r := r.(errors := n);
      return;
    }
    var lookups := b.answer.value;
    for i := 0 to n
      invariant r == CountLookups(lookups[..i], o)
    {
      assert lookups[..i + 1][..i] == lookups[..i];
      if lookups[i].found {
        if !lookups[i].equal {
          r := r.(errors := r.errors + 1);
        } else {
          r := r.(hits := r.hits + 1);
          r := r.(bytes := r.bytes + o.valueBytes);
        }
      }
      if !lookups[i].found {
        if o.workload.Origin? {
          r := r.(origins := r.origins + 1);
          if lookups[i].refillFails {
            r := r.(errors := r.errors + 1);
          }
        } else {
          r := r.(errors := r.errors + 1);
        }
      }
    }
    assert lookups[..n] == lookups;
  }

  // ----- what a sample says -----

  predicate Hit(l: Lookup) { l.found && l.equal }

  predicate Clean(l: Lookup, o: Setup) {
    if l.found then l.equal else o.workload.Origin? && !l.refillFails
  }

  function HitsOf(lookups: seq<Lookup>): set<nat> { set i: nat | i < |lookups| && Hit(lookups[i]) }

  function MissesOf(lookups: seq<Lookup>): set<nat> { set i: nat | i < |lookups| && !lookups[i].found }

  function FaultsOf(lookups: seq<Lookup>, o: Setup): set<nat> {
    set i: nat | i < |lookups| && !Clean(lookups[i], o)
  }

  /** Gets against hits, origins and errors; bytes against hits. */
  predicate Accounted(r: Sample, o: Setup) {
    && r.hits + r.origins <= r.gets <= r.hits + r.origins + r.errors
    && (!o.workload.Origin? ==> r.origins == 0)
    && r.objects == (if o.kind.Unary? then 1 else o.batchSize) && r.bytes == r.hits * o.valueBytes
  }

  /** What one lookup adds to a sample. */
  lemma LookupAdds(r: Sample, l: Lookup, o: Setup)
    ensures var r' := CountLookup(r, l, o);
            && r'.objects == r.objects && r'.gets == r.gets
            && r'.hits == r.hits + (if Hit(l) then 1 else 0)
            && r'.bytes == r.bytes + (if Hit(l) then o.valueBytes else 0)
            && r'.origins == r.origins + (if o.workload.Origin? && !l.found then 1 else 0)
            && r'.errors == r.errors + (if Clean(l, o) then 0 else 1)
  {
  }

  /** The hits, origins and errors of a sample are the positions that hit, that
      missed (in an origin workload) and that were not clean. */
  lemma {:induction false} LookupsAreCounted(lookups: seq<Lookup>, o: Setup)
    ensures var r := CountLookups(lookups, o);
            && r.objects == r.gets == Objects(o)
            && r.hits == |HitsOf(lookups)| && r.bytes == r.hits * o.valueBytes
            && r.origins == (if o.workload.Origin? then |MissesOf(lookups)| else 0)
            && r.errors == |FaultsOf(lookups, o)|
  {
    if lookups == [] {
      assert HitsOf(lookups) == {} && MissesOf(lookups) == {} && FaultsOf(lookups, o) == {};
    } else {
      hide CountLookup, HitsOf, MissesOf, FaultsOf, Hit, Clean;
      var front, last := lookups[..|lookups| - 1], lookups[|lookups| - 1];
      var r := CountLookups(front, o);
      LookupsAreCounted(front, o);
      LookupAdds(r, last, o);
      CountedNext(front, last, o);
      assert lookups == front + [last];
      assert (r.hits + 1) * o.valueBytes == r.hits * o.valueBytes + o.valueBytes;
    }
  }

  /** Whatever is neither a hit nor an origin is an error. */
  lemma {:induction false} LookupsAddUp(lookups: seq<Lookup>, o: Setup)
    ensures var r := CountLookups(lookups, o);
            && r.hits + r.origins <= |lookups| <= r.hits + r.origins + r.errors
            && (r.errors == 0 <==> forall i :: 0 <= i < |lookups| ==> Clean(lookups[i], o))
  {
    if lookups != [] {
      hide CountLookup;
      var front, last := lookups[..|lookups| - 1], lookups[|lookups| - 1];
      LookupsAddUp(front, o);
      LookupAdds(CountLookups(front, o), last, o);
      assert lookups == front + [last];
    }
  }

  lemma CountedNext(front: seq<Lookup>, l: Lookup, o: Setup)
    ensures |HitsOf(front + [l])| == |HitsOf(front)| + (if Hit(l) then 1 else 0)
    ensures |MissesOf(front + [l])| == |MissesOf(front)| + (if !l.found then 1 else 0)
    ensures |FaultsOf(front + [l], o)| == |FaultsOf(front, o)| + (if Clean(l, o) then 0 else 1)
  {
    hide HitsOf, MissesOf, FaultsOf, Hit, Clean;
    HitsNext(front, l);
    MissesNext(front, l);
    FaultsNext(front, l, o);
  }

  lemma FaultsNext(front: seq<Lookup>, l: Lookup, o: Setup)
    ensures FaultsOf(front + [l], o) == FaultsOf(front, o) + (if Clean(l, o) then {} else {|front|})
    ensures |front| !in FaultsOf(front, o)
  {
    hide Clean;
  }

  lemma HitsNext(front: seq<Lookup>, l: Lookup)
    ensures HitsOf(front + [l]) == HitsOf(front) + (if Hit(l) then {|front|} else {})
    ensures |front| !in HitsOf(front)
  {
    hide Hit;
  }

  lemma MissesNext(front: seq<Lookup>, l: Lookup)
    ensures MissesOf(front + [l]) == MissesOf(front) + (if !l.found then {|front|} else {})
    ensures |front| !in MissesOf(front)
  {
  }

  /** Nothing goes wrong in an operation. */
  predicate Flawless(o: Setup, op: nat, b: Backend) {
    if Writes(o, op) then !b.writeFails
    else b.answer.Some? && forall i :: 0 <= i < |b.answer.value| ==> Clean(b.answer.value[i], o)
  }

  /** Every sample is accounted for, on the write and error paths too: a write
      counts no get, a failed write or read counts an error for every object, and
      there is no error exactly when nothing went wrong. */
  lemma SamplesAreAccounted(o: Setup, op: nat, b: Backend)
    requires Valid(o) && Answers(o, b)
    ensures var r := Measure(o, op, b);
            && Accounted(r, o)
            && r.gets == (if Writes(o, op) then 0 else r.objects)
            && (Writes(o, op) ==> r.errors == if b.writeFails then r.objects else 0)
            && (!Writes(o, op) && b.answer.None? ==> r.errors == r.objects && r.hits == 0)
            && (r.errors == 0 <==> Flawless(o, op, b))
  {
    if !Writes(o, op) && b.answer.Some? {
      LookupsAreCounted(b.answer.value, o);
      LookupsAddUp(b.answer.value, o);
    }
  }

  /** Which of the operations from `start` on write. */
  function WritesAmong(o: Setup, start: nat, n: nat): set<nat> {
    set op: nat | start <= op < start + n && Writes(o, op)
  }

  /** The mix of a workload: of any ten unary operations in a row one writes in the
      read-heavy workload, of any two one in the mixed workload, and none
      otherwise; batch sets always write, batch gets and pipelines never. */
  lemma WorkloadMix(o: Setup, start: nat)
    ensures o.kind.Unary? && o.workload.ReadHeavy? ==> |WritesAmong(o, start, 10)| == 1
    ensures o.kind.Unary? && o.workload.Mixed? ==> |WritesAmong(o, start, 2)| == 1
    ensures o.kind.Unary? && (o.workload.ReadOnly? || o.workload.Origin?) ==> !Writes(o, start)
    ensures o.kind.BatchGet? || o.kind.Pipeline? ==> !Writes(o, start)
    ensures o.kind.BatchSet? ==> Writes(o, start)
  {
    if o.kind.Unary? && o.workload.ReadHeavy? {
      var op: nat := (start + 9) / 10 * 10;
      assert WritesAmong(o, start, 10) == {op};
    } else if o.kind.Unary? && o.workload.Mixed? {
      var op: nat := (start + 1) / 2 * 2;
      assert WritesAmong(o, start, 2) == {op};
    }
  }

  // ----- the phase -----

  /** The counters of one worker, or of the whole phase. */
  datatype Phase = Phase(operations: nat, batches: nat, gets: nat, hits: nat, origins: nat, errors: nat, bytes: nat)

  const EMPTY := Phase(0, 0, 0, 0, 0, 0, 0)

  function Record(p: Phase, s: Sample): Phase {
    Phase(p.operations + s.objects, p.batches + 1, p.gets + s.gets, p.hits + s.hits,
          p.origins + s.origins, p.errors + s.errors, p.bytes + s.bytes)
  }

  function Merge(p: Phase, q: Phase): Phase {
    Phase(p.operations + q.operations, p.batches + q.batches, p.gets + q.gets, p.hits + q.hits,
          p.origins + q.origins, p.errors + q.errors, p.bytes + q.bytes)
  }

  function Sum(parts: seq<Phase>): Phase {
    if parts == [] then EMPTY else Merge(Sum(parts[..|parts| - 1]), parts[|parts| - 1])
  }

  /** The samples recorded one after the other, by a single worker. */
  function Total(samples: seq<Sample>): Phase {
    if samples == [] then EMPTY else Record(Total(samples[..|samples| - 1]), samples[|samples| - 1])
  }

  /** The merge loop at the end of a phase. */
  method MergeParts(parts: seq<Phase>) returns (out: Phase)
    ensures out == Sum(parts)
  {
    out := EMPTY;
    for i := 0 to |parts|
      invariant out == Sum(parts[..i])
    {
      assert parts[..i + 1][..i] == parts[..i];
      out := Merge(out, parts[i]);
    }
    assert parts[..|parts|] == parts;
  }

  /** It does not matter which worker records a sample. */
  lemma {:induction false} SumRecords(parts: seq<Phase>, w: nat, s: Sample)
    requires w < |parts|
    ensures Sum(parts[w := Record(parts[w], s)]) == Record(Sum(parts), s)
  {
    var n := |parts| - 1;
    var parts' := parts[w := Record(parts[w], s)];
    if w == n {
      assert parts'[..n] == parts[..n];
    } else {
      assert parts'[..n] == parts[..n][w := Record(parts[w], s)];
      SumRecords(parts[..n], w, s);
    }
  }

  predicate Idle(p: Phase) {
    p.operations == p.batches == p.gets == p.hits == p.origins == p.errors == p.bytes == 0
  }

  lemma {:induction false} SumOfIdle(parts: seq<Phase>)
    requires forall i :: 0 <= i < |parts| ==> Idle(parts[i])
    ensures Sum(parts) == EMPTY
  {
    if parts != [] {
      hide Idle, Merge;
      var front, last := parts[..|parts| - 1], parts[|parts| - 1];
      SumOfIdle(front);
      MergeIdle(Sum(front), last);
    }
  }

  lemma MergeIdle(p: Phase, q: Phase)
    requires Idle(q)
    ensures Merge(p, q) == p
  {
  }

  lemma TotalSnoc(samples: seq<Sample>, s: Sample)
    ensures Total(samples + [s]) == Record(Total(samples), s)
  {
    assert (samples + [s])[..|samples|] == samples;
  }

  function SumOf(samples: seq<Sample>, field: Sample -> nat): nat {
    if samples == [] then 0 else SumOf(samples[..|samples| - 1], field) + field(samples[|samples| - 1])
  }

  /** Each counter of a phase is the sum of that field over the samples. */
  lemma {:induction false} TotalIsFieldwise(samples: seq<Sample>)
    ensures var p := Total(samples);
            && p.operations == SumOf(samples, (s: Sample) => s.objects) && p.batches == |samples|
            && p.gets == SumOf(samples, (s: Sample) => s.gets) && p.hits == SumOf(samples, (s: Sample) => s.hits)
            && p.origins == SumOf(samples, (s: Sample) => s.origins)
            && p.errors == SumOf(samples, (s: Sample) => s.errors)
            && p.bytes == SumOf(samples, (s: Sample) => s.bytes)
  {
    if samples != [] { TotalIsFieldwise(samples[..|samples| - 1]); }
  }

  /** Over a whole phase: gets are hits plus origins up to the errors, every batch
      counts all its objects and every hit its bytes, and no error means no error
      in any sample. */
  lemma {:induction false} TotalIsAccounted(samples: seq<Sample>, o: Setup)
    requires forall i :: 0 <= i < |samples| ==> Accounted(samples[i], o)
    ensures var p := Total(samples);
            && p.batches == |samples| && p.hits + p.origins <= p.gets <= p.hits + p.origins + p.errors
            && (!o.workload.Origin? ==> p.origins == 0)
            && p.operations == |samples| * Objects(o) && p.bytes == p.hits * o.valueBytes
            && (p.errors == 0 <==> forall i :: 0 <= i < |samples| ==> samples[i].errors == 0)
  {
    if samples != [] {
      var front, last := samples[..|samples| - 1], samples[|samples| - 1];
      TotalIsAccounted(front, o);
      assert |samples| * Objects(o) == |front| * Objects(o) + Objects(o);
      assert (Total(front).hits + last.hits) * o.valueBytes == Total(front).hits * o.valueBytes + last.hits * o.valueBytes;
    }
  }
}
