/**
 * `sample_ads` of the topic script as a fold over one file's ads, already
 * shuffled. The fold threads the per-source quota (years and 'total'), the
 * per-topic quota, the file's acceptance counter and the emitted samples;
 * the id registry is the set of ids read from the id file when the call
 * starts and is not extended during the call.
 */
module TopicSampler {
  import opened Wrappers
  import opened Quota
  import opened Zones
  import opened Topics
  import opened Sampling

  /** At most this many acceptances per x28 file. */
  const FileCap: int := 5

  datatype State = State(
    quota: map<QuotaKey, int>,
    topicQuota: map<int, int>,
    extracted: int,
    samples: seq<Sample>)

  /** One iteration of the loop over ads, check for check in the script's order. */
  function Judge(cfg: Settings, job: FileJob, topics: map<string, int>, registry: set<string>, st: State, ad: Ad)
    : Verdict<int>
  {
    var id := AdId(cfg.source, ad);
    var topic := TopicOf(topics, id);
    // `ad_id_list` is created empty for every ad and never filled
    var inFile: seq<string> := [];
    if topic.None? || topic.value !in st.topicQuota then Skip(NoTopic)
    else if st.topicQuota[topic.value] == 0 then Skip(TopicExhausted)
    else if Remaining(st.quota, Total) == 0 then Stop(TotalExhausted)
    else if Remaining(st.quota, Year(ad.year)) == 0 then
      if job.multiYear then Skip(YearExhausted) else Stop(YearExhausted)
    else if cfg.source == CappedSource && st.extracted >= FileCap then Stop(FileCapReached)
    else if ad.lang != Language then Skip(NotGerman)
    else if ad.year < MinYear then Skip(TooOld)
    else if id in inFile then Skip(DuplicateInFile)
    else if id in registry then Skip(AlreadySampled)
    else
      match ExtractSeedClipped(ad.tokens, cfg.zones, cfg.threshold)
      case None => Skip(NoZoneText)
      case Some(text) =>
        if text == "" then Skip(NoZoneText)
        else if !LengthOk(text) then Skip(BadLength)
        else Accept(text, topic.value)
  }

  /** The sample the script writes for an accepted ad. */
  function Emitted(cfg: Settings, ad: Ad, text: string, topic: int): Sample {
    Sample(AdId(cfg.source, ad), text, ad.year, cfg.source, ad.lang, TopicLabel(topic))
  }

  /**
   * Acceptance: the ad's year, 'total' and its topic each lose exactly one
   * unit, the file counter gains one, one sample is emitted, nothing else moves.
   */
  function Admit(cfg: Settings, st: State, ad: Ad, text: string, topic: int): (r: State)
    ensures Remaining(r.quota, Year(ad.year)) == Remaining(st.quota, Year(ad.year)) - 1
    ensures Remaining(r.quota, Total) == Remaining(st.quota, Total) - 1
    ensures forall k :: k != Year(ad.year) && k != Total ==> Remaining(r.quota, k) == Remaining(st.quota, k)
    ensures Remaining(r.topicQuota, topic) == Remaining(st.topicQuota, topic) - 1
    ensures forall t :: t != topic ==> Remaining(r.topicQuota, t) == Remaining(st.topicQuota, t)
    ensures r.extracted == st.extracted + 1
    ensures |r.samples| == |st.samples| + 1 && r.samples[..|st.samples|] == st.samples
    ensures var s := r.samples[|st.samples|];
      s.id == AdId(cfg.source, ad) && s.text == text && s.year == ad.year && s.source == cfg.source
      && s.lang == ad.lang && s.category == TopicLabel(topic)
  {
    State(
      Take(Take(st.quota, Year(ad.year)), Total),
      Take(st.topicQuota, topic),
      st.extracted + 1,
      st.samples + [Emitted(cfg, ad, text, topic)])
  }

  /** The loop over the ads of one file. */
  function Scan(cfg: Settings, job: FileJob, topics: map<string, int>, registry: set<string>, ads: seq<Ad>, st: State)
    : State
    decreases |ads|
  {
    if |ads| == 0 then st
    else
      match Judge(cfg, job, topics, registry, st, ads[0])
      case Stop(_) => st
      case Skip(_) => Scan(cfg, job, topics, registry, ads[1..], st)
      case Accept(text, t) => Scan(cfg, job, topics, registry, ads[1..], Admit(cfg, st, ads[0], text, t))
  }

  /** The state a call starts from: the quotas handed in, no acceptance yet. */
  function Start(quota: map<QuotaKey, int>, topicQuota: map<int, int>): State {
    State(quota, topicQuota, 0, [])
  }

  /** One call of `sample_ads`: the pre-check, then the loop. */
  function SampleAds(cfg: Settings, job: FileJob, topics: map<string, int>, registry: set<string>,
                     quota: map<QuotaKey, int>, topicQuota: map<int, int>): State
  {
    if !ShouldParse(cfg.source, job.fileYear, quota) then Start(quota, topicQuota)
    else Scan(cfg, job, topics, registry, job.ads, Start(quota, topicQuota))
  }

  // ---------------------------------------------------------------------------
  // One ad
  // ---------------------------------------------------------------------------

  /** Everything an ad needs to be taken, with `text` its extracted text. */
  ghost predicate Eligible(cfg: Settings, topics: map<string, int>, registry: set<string>, st: State, ad: Ad,
                           text: string, topic: int)
  {
    && TopicOf(topics, AdId(cfg.source, ad)) == Some(topic)
    && topic in st.topicQuota && st.topicQuota[topic] > 0
    && Remaining(st.quota, Total) > 0
    && Remaining(st.quota, Year(ad.year)) > 0
    && !(cfg.source == CappedSource && st.extracted >= FileCap)
    && ad.lang == Language
    && ad.year >= MinYear
    && AdId(cfg.source, ad) !in registry
    && ExtractSeedClipped(ad.tokens, cfg.zones, cfg.threshold) == Some(text)
    && LengthOk(text)
  }

  /** With no negative quota, an ad is taken exactly when it is eligible. */
  lemma AcceptIff(cfg: Settings, job: FileJob, topics: map<string, int>, registry: set<string>, st: State, ad: Ad,
                  text: string, topic: int)
    requires NonNegative(st.quota) && NonNegative(st.topicQuota)
    ensures Judge(cfg, job, topics, registry, st, ad) == Accept(text, topic) <==>
      Eligible(cfg, topics, registry, st, ad, text, topic)
  {
  }

  /**
   * Loop control: once the ad has a live topic, an exhausted 'total' leaves
   * the file, an exhausted year skips the ad in a multi-year file and leaves
   * any other file, and a full x28 file is left.
   */
  lemma LoopControl(cfg: Settings, job: FileJob, topics: map<string, int>, registry: set<string>, st: State, ad: Ad)
    requires TopicOf(topics, AdId(cfg.source, ad)).Some?
    requires TopicOf(topics, AdId(cfg.source, ad)).value in st.topicQuota
    requires st.topicQuota[TopicOf(topics, AdId(cfg.source, ad)).value] != 0
    ensures Remaining(st.quota, Total) == 0 ==>
      Judge(cfg, job, topics, registry, st, ad) == Stop(TotalExhausted)
    ensures Remaining(st.quota, Total) != 0 && Remaining(st.quota, Year(ad.year)) == 0 ==>
      Judge(cfg, job, topics, registry, st, ad) == if job.multiYear then Skip(YearExhausted) else Stop(YearExhausted)
    ensures (Remaining(st.quota, Total) != 0 && Remaining(st.quota, Year(ad.year)) != 0
             && cfg.source == CappedSource && st.extracted >= FileCap) ==>
      Judge(cfg, job, topics, registry, st, ad) == Stop(FileCapReached)
  {
  }

  /** The in-file duplicate check never rejects an ad. */
  lemma NoInFileRejection(cfg: Settings, job: FileJob, topics: map<string, int>, registry: set<string>, st: State, ad: Ad)
    ensures Judge(cfg, job, topics, registry, st, ad) != Skip(DuplicateInFile)
  {
  }

  // ---------------------------------------------------------------------------
  // The whole loop
  // ---------------------------------------------------------------------------

  /** Quotas that start non-negative stay non-negative. */
  lemma {:induction false} ScanKeepsNonNegative(cfg: Settings, job: FileJob, topics: map<string, int>,
                                               registry: set<string>, ads: seq<Ad>, st: State)
    requires NonNegative(st.quota) && NonNegative(st.topicQuota)
    ensures NonNegative(Scan(cfg, job, topics, registry, ads, st).quota)
    ensures NonNegative(Scan(cfg, job, topics, registry, ads, st).topicQuota)
    decreases |ads|
  {
    if |ads| > 0 {
      match Judge(cfg, job, topics, registry, st, ads[0])
      case Stop(_) =>
      case Skip(_) =>
        ScanKeepsNonNegative(cfg, job, topics, registry, ads[1..], st);
      case Accept(text, t) =>
        var st' := Admit(cfg, st, ads[0], text, t);
        TakeKeepsNonNegative(st.quota, Year(ads[0].year));
        TakeKeepsNonNegative(Take(st.quota, Year(ads[0].year)), Total);
        TakeKeepsNonNegative(st.topicQuota, t);
        ScanKeepsNonNegative(cfg, job, topics, registry, ads[1..], st');
    }
  }

  /**
   * Samples are only appended, and every sample emitted is matched by exactly
   * one unit taken from 'total' and one step of the file counter.
   */
  lemma {:induction false} ScanExtends(cfg: Settings, job: FileJob, topics: map<string, int>,
                                      registry: set<string>, ads: seq<Ad>, st: State)
    ensures var r := Scan(cfg, job, topics, registry, ads, st);
      && |st.samples| <= |r.samples| && r.samples[..|st.samples|] == st.samples
      && |r.samples| - |st.samples| == r.extracted - st.extracted
      && |r.samples| - |st.samples| == Remaining(st.quota, Total) - Remaining(r.quota, Total)
    decreases |ads|
  {
    if |ads| > 0 {
      match Judge(cfg, job, topics, registry, st, ads[0])
      case Stop(_) =>
      case Skip(_) =>
        ScanExtends(cfg, job, topics, registry, ads[1..], st);
      case Accept(text, topic) =>
        var st' := Admit(cfg, st, ads[0], text, topic);
        assert Scan(cfg, job, topics, registry, ads, st) == Scan(cfg, job, topics, registry, ads[1..], st');
        ScanExtends(cfg, job, topics, registry, ads[1..], st');
        var r := Scan(cfg, job, topics, registry, ads[1..], st');
        assert r.samples[..|st.samples|] == r.samples[..|st'.samples|][..|st.samples|];
    }
  }

  /**
   * Per year and per topic, the samples emitted match the units taken from
   * that year's and that topic's quota.
   */
  lemma {:induction false} ScanAccounts(cfg: Settings, job: FileJob, topics: map<string, int>,
                                       registry: set<string>, ads: seq<Ad>, st: State, y: int, t: int)
    ensures var r := Scan(cfg, job, topics, registry, ads, st);
      && CountYear(r.samples, y) - CountYear(st.samples, y) == Remaining(st.quota, Year(y)) - Remaining(r.quota, Year(y))
      && CountCategory(r.samples, TopicLabel(t)) - CountCategory(st.samples, TopicLabel(t))
         == Remaining(st.topicQuota, t) - Remaining(r.topicQuota, t)
    decreases |ads|
  {
    if |ads| > 0 {
      match Judge(cfg, job, topics, registry, st, ads[0])
      case Stop(_) =>
      case Skip(_) =>
        ScanAccounts(cfg, job, topics, registry, ads[1..], st, y, t);
      case Accept(text, topic) =>
        var st' := Admit(cfg, st, ads[0], text, topic);
        assert Scan(cfg, job, topics, registry, ads, st) == Scan(cfg, job, topics, registry, ads[1..], st');
        var s := Emitted(cfg, ads[0], text, topic);
        assert st'.samples == st.samples + [s];
        CountYearSnoc(st.samples, s, y);
        CountCategorySnoc(st.samples, s, TopicLabel(t));
        ScanAccounts(cfg, job, topics, registry, ads[1..], st', y, t);
    }
  }

  /** A sample emitted at an ad of `ads`, meeting every acceptance condition. */
  ghost predicate TakenFrom(cfg: Settings, topics: map<string, int>, registry: set<string>, ads: seq<Ad>, s: Sample) {
    && WellFormed(s, cfg.source, registry)
    && s.category.TopicLabel?
    && TopicOf(topics, s.id) == Some(s.category.topic)
    && exists k :: 0 <= k < |ads| && FromAd(cfg, ads[k], s)
  }

  /** `s` is the sample written for `ad`, carrying the text extracted from it. */
  ghost predicate FromAd(cfg: Settings, ad: Ad, s: Sample) {
    && s.category.TopicLabel?
    && s == Emitted(cfg, ad, s.text, s.category.topic)
    && ExtractSeedClipped(ad.tokens, cfg.zones, cfg.threshold) == Some(s.text)
  }

  /** The sample written for an accepted ad meets the filters and comes from that ad. */
  lemma AcceptTaken(cfg: Settings, job: FileJob, topics: map<string, int>, registry: set<string>, st: State, ad: Ad,
                    text: string, topic: int)
    ensures Judge(cfg, job, topics, registry, st, ad) == Accept(text, topic) ==>
      && WellFormed(Emitted(cfg, ad, text, topic), cfg.source, registry)
      && TopicOf(topics, AdId(cfg.source, ad)) == Some(topic)
      && FromAd(cfg, ad, Emitted(cfg, ad, text, topic))
  {
  }

  /** A sample taken from the rest of the file is taken from the file. */
  lemma TakenFromTail(cfg: Settings, topics: map<string, int>, registry: set<string>, ads: seq<Ad>, s: Sample)
    requires |ads| > 0
    ensures TakenFrom(cfg, topics, registry, ads[1..], s) ==> TakenFrom(cfg, topics, registry, ads, s)
  {
    if TakenFrom(cfg, topics, registry, ads[1..], s) {
      var k :| 0 <= k < |ads[1..]| && FromAd(cfg, ads[1..][k], s);
      assert ads[1..][k] == ads[k + 1];
    }
  }

  /** Every sample the loop emits comes from the file and meets the filters. */
  lemma {:induction false} ScanEmitsEligible(cfg: Settings, job: FileJob, topics: map<string, int>,
                                            registry: set<string>, ads: seq<Ad>, st: State)
    ensures var r := Scan(cfg, job, topics, registry, ads, st);
      forall i :: |st.samples| <= i < |r.samples| ==> TakenFrom(cfg, topics, registry, ads, r.samples[i])
    decreases |ads|
  {
    if |ads| > 0 {
      match Judge(cfg, job, topics, registry, st, ads[0])
      case Stop(_) =>
      case Skip(_) =>
        ScanEmitsEligible(cfg, job, topics, registry, ads[1..], st);
        var r := Scan(cfg, job, topics, registry, ads, st);
        assert r == Scan(cfg, job, topics, registry, ads[1..], st);
        forall i | |st.samples| <= i < |r.samples|
          ensures TakenFrom(cfg, topics, registry, ads, r.samples[i])
        {
          TakenFromTail(cfg, topics, registry, ads, r.samples[i]);
        }
      case Accept(text, topic) =>
        var st' := Admit(cfg, st, ads[0], text, topic);
        ScanEmitsEligible(cfg, job, topics, registry, ads[1..], st');
        ScanExtends(cfg, job, topics, registry, ads[1..], st');
        var r := Scan(cfg, job, topics, registry, ads, st);
        assert r == Scan(cfg, job, topics, registry, ads[1..], st');
        forall i | |st.samples| <= i < |r.samples|
          ensures TakenFrom(cfg, topics, registry, ads, r.samples[i])
        {
          if i == |st.samples| {
            AcceptTaken(cfg, job, topics, registry, st, ads[0], text, topic);
            assert r.samples[i] == st'.samples[i] == Emitted(cfg, ads[0], text, topic);
          } else {
            TakenFromTail(cfg, topics, registry, ads, r.samples[i]);
          }
        }
    }
  }

  /** An x28 file never yields more than `FileCap` acceptances. */
  lemma {:induction false} ScanRespectsFileCap(cfg: Settings, job: FileJob, topics: map<string, int>,
                                              registry: set<string>, ads: seq<Ad>, st: State)
    requires cfg.source == CappedSource
    requires st.extracted <= FileCap
    ensures Scan(cfg, job, topics, registry, ads, st).extracted <= FileCap
    decreases |ads|
  {
    if |ads| > 0 {
      match Judge(cfg, job, topics, registry, st, ads[0])
      case Stop(_) =>
      case Skip(_) =>
        ScanRespectsFileCap(cfg, job, topics, registry, ads[1..], st);
      case Accept(text, topic) =>
        ScanRespectsFileCap(cfg, job, topics, registry, ads[1..], Admit(cfg, st, ads[0], text, topic));
    }
  }

  /** Once 'total' is exhausted nothing changes any more. */
  lemma {:induction false} ScanIdleWhenTotalExhausted(cfg: Settings, job: FileJob, topics: map<string, int>,
                                                     registry: set<string>, ads: seq<Ad>, st: State)
    requires Remaining(st.quota, Total) == 0
    ensures Scan(cfg, job, topics, registry, ads, st) == st
    decreases |ads|
  {
    if |ads| > 0 {
      ScanIdleWhenTotalExhausted(cfg, job, topics, registry, ads[1..], st);
    }
  }

  /**
   * With distinct ads in the file, no sample id repeats, provided the samples
   * already emitted share no id with the ads still to come.
   */
  lemma {:induction false} ScanDistinct(cfg: Settings, job: FileJob, topics: map<string, int>,
                                       registry: set<string>, ads: seq<Ad>, st: State)
    requires DistinctAds(ads)
    requires DistinctIds(st.samples)
    requires forall i, k :: 0 <= i < |st.samples| && 0 <= k < |ads| ==> st.samples[i].id != AdId(cfg.source, ads[k])
    ensures DistinctIds(Scan(cfg, job, topics, registry, ads, st).samples)
    decreases |ads|
  {
    if |ads| > 0 {
      var rest := ads[1..];
      assert DistinctAds(rest) by {
        forall i, j | 0 <= i < j < |rest|
          ensures rest[i].localId != rest[j].localId
        {
          assert rest[i] == ads[i + 1] && rest[j] == ads[j + 1];
        }
      }
      match Judge(cfg, job, topics, registry, st, ads[0])
      case Stop(_) =>
      case Skip(_) =>
        ScanDistinct(cfg, job, topics, registry, rest, st);
      case Accept(text, topic) =>
        var st' := Admit(cfg, st, ads[0], text, topic);
        var s := Emitted(cfg, ads[0], text, topic);
        assert st'.samples == st.samples + [s];
        forall i, k | 0 <= i < |st'.samples| && 0 <= k < |rest|
          ensures st'.samples[i].id != AdId(cfg.source, rest[k])
        {
          assert rest[k] == ads[k + 1];
          if i == |st.samples| && s.id == AdId(cfg.source, rest[k]) {
            AdIdInjective(cfg.source, ads[0], ads[k + 1]);
          }
        }
        ScanDistinct(cfg, job, topics, registry, rest, st');
    }
  }

  /**
   * Because the in-file duplicate list is always empty and the registry is
   * not extended during a call, the same ad met twice in one file is taken
   * twice while the quotas last.
   */
  lemma DuplicateTakenTwice(cfg: Settings, job: FileJob, topics: map<string, int>, registry: set<string>,
                            st: State, ad: Ad, text: string, topic: int)
    ensures (&& Judge(cfg, job, topics, registry, st, ad) == Accept(text, topic)
             && Remaining(st.quota, Total) >= 2 && Remaining(st.quota, Year(ad.year)) >= 2
             && Remaining(st.topicQuota, topic) >= 2
             && cfg.source != CappedSource) ==>
      Scan(cfg, job, topics, registry, [ad, ad], st).samples
        == st.samples + [Emitted(cfg, ad, text, topic), Emitted(cfg, ad, text, topic)]
  {
    if && Judge(cfg, job, topics, registry, st, ad) == Accept(text, topic)
       && Remaining(st.quota, Total) >= 2 && Remaining(st.quota, Year(ad.year)) >= 2
       && Remaining(st.topicQuota, topic) >= 2
       && cfg.source != CappedSource
    {
      var st' := Admit(cfg, st, ad, text, topic);
      assert [ad, ad][1..] == [ad];
      assert Scan(cfg, job, topics, registry, [ad, ad], st) == Scan(cfg, job, topics, registry, [ad], st');
      SecondVisitAccepted(cfg, job, topics, registry, st, ad, text, topic);
      assert [ad][1..] == [];
      assert Scan(cfg, job, topics, registry, [ad], st') == Admit(cfg, st', ad, text, topic);
    }
  }

  /** The second visit of an accepted ad meets exactly the same checks. */
  lemma SecondVisitAccepted(cfg: Settings, job: FileJob, topics: map<string, int>, registry: set<string>,
                            st: State, ad: Ad, text: string, topic: int)
    ensures (&& Judge(cfg, job, topics, registry, st, ad) == Accept(text, topic)
             && Remaining(st.quota, Total) >= 2 && Remaining(st.quota, Year(ad.year)) >= 2
             && Remaining(st.topicQuota, topic) >= 2
             && cfg.source != CappedSource) ==>
      Judge(cfg, job, topics, registry, Admit(cfg, st, ad, text, topic), ad) == Accept(text, topic)
  {
    if && Judge(cfg, job, topics, registry, st, ad) == Accept(text, topic)
       && Remaining(st.quota, Total) >= 2 && Remaining(st.quota, Year(ad.year)) >= 2
       && Remaining(st.topicQuota, topic) >= 2
       && cfg.source != CappedSource
    {
      var st' := Admit(cfg, st, ad, text, topic);
      assert TopicOf(topics, AdId(cfg.source, ad)) == Some(topic);
      assert topic in st'.topicQuota && st'.topicQuota[topic] != 0;
      assert Remaining(st'.quota, Total) != 0 && Remaining(st'.quota, Year(ad.year)) != 0;
    }
  }

  // ---------------------------------------------------------------------------
  // One call, and consecutive calls over the files of one source
  // ---------------------------------------------------------------------------

  /**
   * A skipped file changes nothing; otherwise each sample meets the filters
   * and is paid for by exactly one unit of 'total', and the quotas stay
   * non-negative.
   */
  lemma SampleAdsSummary(cfg: Settings, job: FileJob, topics: map<string, int>, registry: set<string>,
                         quota: map<QuotaKey, int>, topicQuota: map<int, int>)
    requires NonNegative(quota) && NonNegative(topicQuota)
    ensures var r := SampleAds(cfg, job, topics, registry, quota, topicQuota);
      && (!ShouldParse(cfg.source, job.fileYear, quota) ==> r == Start(quota, topicQuota))
      && NonNegative(r.quota) && NonNegative(r.topicQuota)
      && |r.samples| == Remaining(quota, Total) - Remaining(r.quota, Total)
      && |r.samples| == r.extracted
      && (cfg.source == CappedSource ==> |r.samples| <= FileCap)
      && (forall i :: 0 <= i < |r.samples| ==> TakenFrom(cfg, topics, registry, job.ads, r.samples[i]))
      && (DistinctAds(job.ads) ==> DistinctIds(r.samples))
  {
    var st := Start(quota, topicQuota);
    if ShouldParse(cfg.source, job.fileYear, quota) {
      ScanKeepsNonNegative(cfg, job, topics, registry, job.ads, st);
      ScanExtends(cfg, job, topics, registry, job.ads, st);
      ScanEmitsEligible(cfg, job, topics, registry, job.ads, st);
      if cfg.source == CappedSource {
        ScanRespectsFileCap(cfg, job, topics, registry, job.ads, st);
      }
      if DistinctAds(job.ads) {
        ScanDistinct(cfg, job, topics, registry, job.ads, st);
      }
    }
  }

  /** The state carried from one file of a source to the next. */
  datatype Run = Run(quota: map<QuotaKey, int>, topicQuota: map<int, int>, registry: set<string>, samples: seq<Sample>)

  /**
   * Consecutive calls over the files of one source. Each call re-reads the id
   * file, which by then holds the ids of every earlier acceptance.
   */
  function SampleFiles(cfg: Settings, jobs: seq<FileJob>, topics: map<string, int>, run: Run): Run
    decreases |jobs|
  {
    if |jobs| == 0 then run
    else
      var out := SampleAds(cfg, jobs[0], topics, run.registry, run.quota, run.topicQuota);
      SampleFiles(cfg, jobs[1..], topics,
        Run(out.quota, out.topicQuota, run.registry + Ids(out.samples), run.samples + out.samples))
  }

  /**
   * The cross-file dedup invariant: when no file holds the same ad twice, no
   * id is sampled twice over the whole source, none of them was in the id
   * file when the run began, and the quotas never go negative.
   */
  lemma {:induction false} SampleFilesDedup(cfg: Settings, jobs: seq<FileJob>, topics: map<string, int>, run: Run)
    requires forall j :: 0 <= j < |jobs| ==> DistinctAds(jobs[j].ads)
    requires DistinctIds(run.samples) && Ids(run.samples) <= run.registry
    requires NonNegative(run.quota) && NonNegative(run.topicQuota)
    ensures var r := SampleFiles(cfg, jobs, topics, run);
      && DistinctIds(r.samples)
      && Ids(r.samples) <= r.registry
      && run.registry <= r.registry
      && |run.samples| <= |r.samples| && r.samples[..|run.samples|] == run.samples
      && (forall i :: |run.samples| <= i < |r.samples| ==> r.samples[i].id !in run.registry)
      && NonNegative(r.quota) && NonNegative(r.topicQuota)
    decreases |jobs|
  {
    if |jobs| > 0 {
      var out := SampleAds(cfg, jobs[0], topics, run.registry, run.quota, run.topicQuota);
      SampleAdsSummary(cfg, jobs[0], topics, run.registry, run.quota, run.topicQuota);
      var all := run.samples + out.samples;
      forall i | 0 <= i < |out.samples|
        ensures out.samples[i].id !in run.registry
      {
        assert WellFormed(out.samples[i], cfg.source, run.registry);
      }
      AppendFresh(run.samples, out.samples, run.registry);
      var next := Run(out.quota, out.topicQuota, run.registry + Ids(out.samples), all);
      SampleFilesDedup(cfg, jobs[1..], topics, next);
      var r := SampleFiles(cfg, jobs, topics, run);
      assert r == SampleFiles(cfg, jobs[1..], topics, next);
      assert r.samples[..|run.samples|] == all[..|run.samples|];
      forall i | |run.samples| <= i < |r.samples|
        ensures r.samples[i].id !in run.registry
      {
        if i < |all| {
          assert r.samples[i] == r.samples[..|all|][i] == all[i] == out.samples[i - |run.samples|];
        }
      }
    }
  }
}
