/** The loop of `write_metric` on an open file: the bytes of a file follow the run of its samples. */
module FileRuns {
  import opened Words
  import opened Ring
  import opened Layout
  import opened Image
  import opened WhisperFile
  import Engine
  import Pyramid
  import PyramidRuns
  import Alignment
  import Soundness
  import Monitoring

  /**
   * The samples are written in order, as far as every access is good: exactly if
   * the run has a defined result all are, and then the file holds the run of them
   * and every slot write is counted.
   */
  method WriteSamples(file: OpenFile, fpu: Fpu, samples: seq<FilePoint>, monitor: Monitoring.Counter) returns (good: bool)
    requires file.Valid() && Engine.Levels(file.archives) && Engine.Shaped(file.archives, file.rings) && monitor.Valid()
    requires forall i :: 0 <= i < |samples| ==> file.archives[0].step <= samples[i].timestamp
    modifies file, monitor
    ensures file.Valid() && Engine.Shaped(file.archives, file.rings) && monitor.Valid()
    ensures good == PyramidRuns.Defined(PolicyOf(fpu, file.metadata), file.archives, old(file.rings), samples)
    ensures good ==>
              file.rings == PyramidRuns.Run(PolicyOf(fpu, file.metadata), file.archives, old(file.rings), samples)
    ensures good ==>
              Counted(monitor, old(monitor.pending), old(monitor.settled), old(monitor.reported),
                      PyramidRuns.RunWrites(PolicyOf(fpu, file.metadata), file.archives, old(file.rings), samples))
  {
    ghost var policy, start := PolicyOf(fpu, file.metadata), file.rings;
    var i := 0;
    good := true;
    while good && i < |samples|
      invariant 0 <= i <= |samples| && file.Valid() && Engine.Shaped(file.archives, file.rings) && monitor.Valid()
      invariant good == PyramidRuns.Defined(policy, file.archives, start, samples[..i])
      invariant good ==> file.rings == PyramidRuns.Run(policy, file.archives, start, samples[..i])
      invariant good ==> Counted(monitor, old(monitor.pending), old(monitor.settled), old(monitor.reported),
                                 PyramidRuns.RunWrites(policy, file.archives, start, samples[..i]))
      decreases |samples| - i
    {
      OneMoreSample(policy, file.archives, start, samples, i);
      good := file.WriteValue(fpu, samples[i].timestamp, samples[i].value, monitor);
      i := i + 1;
    }
    assert samples[..|samples|] == samples;
    if !good && PyramidRuns.Defined(policy, file.archives, start, samples) {
      PyramidRuns.DefinedPrefix(policy, file.archives, start, samples, i);
    }
  }

  lemma {:induction false} OneMoreSample(policy: Engine.Policy<int>, archives: seq<Archive>, rings: seq<seq<Point<int>>>,
                                         samples: seq<Point<int>>, i: nat)
    requires Engine.Levels(archives) && Engine.Shaped(archives, rings) && i < |samples|
    ensures var p, r := samples[i], PyramidRuns.Run(policy, archives, rings, samples[..i]);
            && (PyramidRuns.Defined(policy, archives, rings, samples[..i + 1]) <==>
                && PyramidRuns.Defined(policy, archives, rings, samples[..i])
                && Engine.Accessible(policy, archives, r, Point(Engine.Align(p.timestamp, archives[0].step), p.value)))
            && PyramidRuns.Run(policy, archives, rings, samples[..i + 1])
               == Engine.WriteValue(policy, archives, r, p.timestamp, p.value)
            && PyramidRuns.RunWrites(policy, archives, rings, samples[..i + 1])
               == PyramidRuns.RunWrites(policy, archives, rings, samples[..i])
                  + Engine.SlotWrites(policy, archives, r, p.timestamp, p.value)
  {
    assert samples[..i + 1][..i] == samples[..i];
  }

  /** From new files of these archives, the run has a defined result. */
  ghost predicate DefinedFromNew(policy: Engine.Policy<int>, archives: seq<Archive>, samples: seq<Point<int>>)
    requires Engine.Levels(archives)
  {
    forall rings: seq<seq<Point<int>>> :: Engine.Shaped(archives, rings) && PyramidRuns.Blank(rings) ==>
      PyramidRuns.Defined(policy, archives, rings, samples)
  }

  /** So it has on safe archives, and on spacious ones if it is regular and its first sample opens a window. */
  lemma {:induction false} DefinedFromSchema(policy: Engine.Policy<int>, archives: seq<Archive>, samples: seq<Point<int>>)
    requires Engine.Levels(archives)
    ensures PyramidRuns.Safe(archives) ==> DefinedFromNew(policy, archives, samples)
    ensures && Pyramid.Chain(archives) && Alignment.Spacious(archives)
            && PyramidRuns.Regular(archives[0].step, samples) && Alignment.StartsWindow(archives, samples)
            ==> DefinedFromNew(policy, archives, samples)
  {
    forall rings: seq<seq<Point<int>>> | Engine.Shaped(archives, rings) && PyramidRuns.Blank(rings)
      ensures PyramidRuns.Safe(archives) ==> PyramidRuns.Defined(policy, archives, rings, samples)
      ensures && Pyramid.Chain(archives) && Alignment.Spacious(archives)
              && PyramidRuns.Regular(archives[0].step, samples) && Alignment.StartsWindow(archives, samples)
              ==> PyramidRuns.Defined(policy, archives, rings, samples)
    {
      if PyramidRuns.Safe(archives) {
        PyramidRuns.SafeRunsAreDefined(policy, archives, rings, samples);
      }
      if && Pyramid.Chain(archives) && Alignment.Spacious(archives)
         && PyramidRuns.Regular(archives[0].step, samples) && Alignment.StartsWindow(archives, samples)
      {
        Alignment.SpaciousRunsAreDefined(policy, archives, rings, samples);
      }
    }
  }

  /**
   * From creation to archive, on the bytes: a new file takes a run in order.
   * With a positive factor, whatever the alignment, all that its bytes decode to
   * are points of the pyramid; if the run is regular and its history aligned,
   * every archive stands for its level.
   */
  method Record(rets: seq<Retention>, aggregation: Word32, xff: Word32, fpu: Fpu, samples: seq<FilePoint>,
                monitor: Monitoring.Counter) returns (file: OpenFile, good: bool)
    requires Usable(rets) && 0 < |rets| < U32 && FileSize(rets) < MAX_FILE && monitor.Valid()
    requires forall k :: 0 <= k < |rets| ==> rets[k].toStore < U32
    requires Engine.Levels(ArchivesOf(rets)) && Pyramid.Dividing(ArchivesOf(rets))
    requires PyramidRuns.Ordered(rets[0].perPoint, samples)
    modifies monitor
    ensures fresh(file) && file.Valid() && file.archives == ArchivesOf(rets)
    ensures file.metadata.aggregation == aggregation && file.metadata.xff == xff
    ensures file.rings == RingsAt(file.bytes, file.archives) && Engine.Shaped(file.archives, file.rings)
    ensures DefinedFromNew(PolicyOf(fpu, file.metadata), file.archives, samples) ==> good
    ensures good && 0.0 < fpu.single(xff) ==>
              Soundness.FileFaithful(PolicyOf(fpu, file.metadata), file.archives, file.rings,
                                     PyramidRuns.History(rets[0].perPoint, samples),
                                     PyramidRuns.Latest(rets[0].perPoint, samples))
    ensures && good && Pyramid.Chain(file.archives) && PyramidRuns.Regular(rets[0].perPoint, samples)
            && Alignment.Aligned(PolicyOf(fpu, file.metadata), file.archives, PyramidRuns.History(rets[0].perPoint, samples))
            ==> Pyramid.FileRefines(PolicyOf(fpu, file.metadata), file.archives, file.rings,
                                    PyramidRuns.History(rets[0].perPoint, samples),
                                    PyramidRuns.Latest(rets[0].perPoint, samples))
  {
    file := new OpenFile.Create(rets, aggregation, xff);
    ghost var policy, start := PolicyOf(fpu, file.metadata), file.rings;
    assert file.archives[0].step == rets[0].perPoint;
    good := WriteSamples(file, fpu, samples, monitor);
    if good && 0.0 < fpu.single(xff) {
      Soundness.RunIsFaithful(policy, file.archives, start, samples);
    }
    if && good && Pyramid.Chain(file.archives) && PyramidRuns.Regular(rets[0].perPoint, samples)
       && Alignment.Aligned(policy, file.archives, PyramidRuns.History(rets[0].perPoint, samples))
    {
      Alignment.RunRefinesPyramid(policy, file.archives, start, samples);
    }
  }
}
