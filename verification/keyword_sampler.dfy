/**
 * `sample_ads` of the keyword script as a fold over one file's ads, already
 * shuffled. The fold threads the per-source quota (years and 'total'), the
 * single-use term list, the file's acceptance counter and the emitted
 * samples; the id registry is the set of ids read from the id file when the
 * call starts and is not extended during the call.
 */
module KeywordSampler {
  import opened Wrappers
  import opened Quota
  import opened Zones
  import opened Keywords
  import opened Sampling

  /** At most this many acceptances per x28 file. */
  const FileCap: int := 3

  datatype State = State(
    quota: map<QuotaKey, int>,
    terms: seq<string>,
    extracted: int,
    samples: seq<Sample>)

  /**
   * One iteration of the loop over ads, check for check in the script's
   * order; an accepted ad carries the index of the term it was taken on.
   */
  function Judge(cfg: Settings, job: FileJob, registry: set<string>, st: State, ad: Ad): (r: Verdict<nat>)
    ensures r.Accept? ==> FirstMatch(st.terms, r.text) == Some(r.choice)
  {
    var id := AdId(cfg.source, ad);
    // `ad_id_list` is created empty for every ad and never filled
    var inFile: seq<string> := [];
    if Remaining(st.quota, Total) == 0 then Stop(TotalExhausted)
    else if Remaining(st.quota, Year(ad.year)) == 0 then
      if job.multiYear then Skip(YearExhausted) else Stop(YearExhausted)
    else if cfg.source == CappedSource && st.extracted >= FileCap then Stop(FileCapReached)
    else if ad.lang != Language then Skip(NotGerman)
    else if ad.year < MinYear then Skip(TooOld)
    // the script repeats the year check for multi-year sjmm files; it cannot fire here
    else if cfg.source == UncheckedSource && job.multiYear && Remaining(st.quota, Year(ad.year)) == 0 then
      Skip(YearExhausted)
    else if id in inFile then Skip(DuplicateInFile)
    else if id in registry then Skip(AlreadySampled)
    else
      match ExtractTokenClipped(ad.tokens, cfg.zones, cfg.threshold)
      case None => Skip(NoZoneText)
      case Some(text) =>
        if text == "" then Skip(NoZoneText)
        else if !LengthOk(text) then Skip(BadLength)
        else
          match FirstMatch(st.terms, text)
          case None => Skip(NoTermMatch)
          case Some(j) => Accept(text, j)
  }

  /** The sample the script writes for an accepted ad. */
  function Emitted(cfg: Settings, ad: Ad, text: string): Sample {
    Sample(AdId(cfg.source, ad), text, ad.year, cfg.source, ad.lang, TermBased)
  }

  /**
   * Acceptance on term `j`: exactly that entry leaves the term list, the
   * ad's year and 'total' each lose exactly one unit, the file counter gains
   * one, one sample is emitted, nothing else moves.
   */
  function Admit(cfg: Settings, st: State, ad: Ad, text: string, j: nat): (r: State)
    requires FirstMatch(st.terms, text) == Some(j)
    ensures r.terms == st.terms[..j] + st.terms[j + 1..]
    ensures Remaining(r.quota, Year(ad.year)) == Remaining(st.quota, Year(ad.year)) - 1
    ensures Remaining(r.quota, Total) == Remaining(st.quota, Total) - 1
    ensures forall k :: k != Year(ad.year) && k != Total ==> Remaining(r.quota, k) == Remaining(st.quota, k)
    ensures r.extracted == st.extracted + 1
    ensures |r.samples| == |st.samples| + 1 && r.samples[..|st.samples|] == st.samples
    ensures var s := r.samples[|st.samples|];
      s.id == AdId(cfg.source, ad) && s.text == text && s.year == ad.year && s.source == cfg.source
      && s.lang == ad.lang && s.category == TermBased
  {
    RemoveMatchedTerm(st.terms, text, j);
    State(
      Take(Take(st.quota, Year(ad.year)), Total),
      RemoveFirst(st.terms, st.terms[j]),
      st.extracted + 1,
      st.samples + [Emitted(cfg, ad, text)])
  }

  /** The loop over the ads of one file. */
  function Scan(cfg: Settings, job: FileJob, registry: set<string>, ads: seq<Ad>, st: State): State
    decreases |ads|
  {
    if |ads| == 0 then st
    else
      match Judge(cfg, job, registry, st, ads[0])
      case Stop(_) => st
      case Skip(_) => Scan(cfg, job, registry, ads[1..], st)
      case Accept(text, j) => Scan(cfg, job, registry, ads[1..], Admit(cfg, st, ads[0], text, j))
  }

  /** The state a call starts from: the quota and term list handed in, no acceptance yet. */
  function Start(quota: map<QuotaKey, int>, terms: seq<string>): State {
    State(quota, terms, 0, [])
  }

  /** One call of `sample_ads`: the pre-check, then the loop. */
  function SampleAds(cfg: Settings, job: FileJob, registry: set<string>, quota: map<QuotaKey, int>,
                     terms: seq<string>): State
  {
    if !ShouldParse(cfg.source, job.fileYear, quota) then Start(quota, terms)
    else Scan(cfg, job, registry, job.ads, Start(quota, terms))
  }

  // ---------------------------------------------------------------------------
  // One ad
  // ---------------------------------------------------------------------------

  /** Everything an ad needs to be taken on term `j`, with `text` its extracted text. */
  ghost predicate Eligible(cfg: Settings, registry: set<string>, st: State, ad: Ad, text: string, j: nat) {
    && Remaining(st.quota, Total) > 0
    && Remaining(st.quota, Year(ad.year)) > 0
    && !(cfg.source == CappedSource && st.extracted >= FileCap)
    && ad.lang == Language
    && ad.year >= MinYear
    && AdId(cfg.source, ad) !in registry
    && ExtractTokenClipped(ad.tokens, cfg.zones, cfg.threshold) == Some(text)
    && LengthOk(text)
    && j < |st.terms| && Matches(st.terms[j], text)
    && forall k :: 0 <= k < j ==> !Matches(st.terms[k], text)
  }

  /**
   * With no negative quota, an ad is taken on term `j` exactly when it is
   * eligible and `j` is the first term of the list that occurs in its text.
   */
  lemma AcceptIff(cfg: Settings, job: FileJob, registry: set<string>, st: State, ad: Ad, text: string, j: nat)
    requires NonNegative(st.quota)
    ensures Judge(cfg, job, registry, st, ad) == Accept(text, j) <==> Eligible(cfg, registry, st, ad, text, j)
  {
    FirstMatchIs(st.terms, text, j);
  }

  /** What an acceptance tells about the ad, whatever the quotas' signs. */
  lemma AcceptFacts(cfg: Settings, job: FileJob, registry: set<string>, st: State, ad: Ad, text: string, j: nat)
    ensures Judge(cfg, job, registry, st, ad) == Accept(text, j) ==>
      && Remaining(st.quota, Total) != 0 && Remaining(st.quota, Year(ad.year)) != 0
      && !(cfg.source == CappedSource && st.extracted >= FileCap)
      && ad.lang == Language && ad.year >= MinYear
      && AdId(cfg.source, ad) !in registry
      && ExtractTokenClipped(ad.tokens, cfg.zones, cfg.threshold) == Some(text)
      && text != "" && LengthOk(text)
      && FirstMatch(st.terms, text) == Some(j)
  {
  }

  /** Taking term `j` leaves a list that is the old one less that one entry. */
  lemma AdmitUsesOneTerm(cfg: Settings, st: State, ad: Ad, text: string, j: nat)
    requires FirstMatch(st.terms, text) == Some(j)
    ensures |Admit(cfg, st, ad, text, j).terms| == |st.terms| - 1
    ensures multiset(Admit(cfg, st, ad, text, j).terms) == multiset(st.terms) - multiset{st.terms[j]}
    ensures forall t :: t in Admit(cfg, st, ad, text, j).terms ==> t in st.terms
  {
    var r := Admit(cfg, st, ad, text, j);
    assert r.terms == st.terms[..j] + st.terms[j + 1..];
    DropAt(st.terms, j);
  }

  /** With an empty term list no ad is ever taken. */
  lemma EmptyTermsNeverAccept(cfg: Settings, job: FileJob, registry: set<string>, st: State, ad: Ad)
    requires st.terms == []
    ensures !Judge(cfg, job, registry, st, ad).Accept?
  {
  }

  /**
   * Loop control: an exhausted 'total' leaves the file, an exhausted year
   * skips the ad in a multi-year file and leaves any other file, and a full
   * x28 file is left.
   */
  lemma LoopControl(cfg: Settings, job: FileJob, registry: set<string>, st: State, ad: Ad)
    ensures Remaining(st.quota, Total) == 0 ==> Judge(cfg, job, registry, st, ad) == Stop(TotalExhausted)
    ensures Remaining(st.quota, Total) != 0 && Remaining(st.quota, Year(ad.year)) == 0 ==>
      Judge(cfg, job, registry, st, ad) == if job.multiYear then Skip(YearExhausted) else Stop(YearExhausted)
    ensures (Remaining(st.quota, Total) != 0 && Remaining(st.quota, Year(ad.year)) != 0
             && cfg.source == CappedSource && st.extracted >= FileCap) ==>
      Judge(cfg, job, registry, st, ad) == Stop(FileCapReached)
  {
  }

  /** The in-file duplicate check never rejects an ad. */
  lemma NoInFileRejection(cfg: Settings, job: FileJob, registry: set<string>, st: State, ad: Ad)
    ensures Judge(cfg, job, registry, st, ad) != Skip(DuplicateInFile)
  {
  }

  // ---------------------------------------------------------------------------
  // The whole loop
  // ---------------------------------------------------------------------------

  /** A quota that starts non-negative stays non-negative. */
  lemma {:induction false} ScanKeepsNonNegative(cfg: Settings, job: FileJob, registry: set<string>,
                                               ads: seq<Ad>, st: State)
    requires NonNegative(st.quota)
    ensures NonNegative(Scan(cfg, job, registry, ads, st).quota)
    decreases |ads|
  {
    if |ads| > 0 {
      match Judge(cfg, job, registry, st, ads[0])
      case Stop(_) =>
      case Skip(_) =>
        ScanKeepsNonNegative(cfg, job, registry, ads[1..], st);
      case Accept(text, j) =>
        TakeKeepsNonNegative(st.quota, Year(ads[0].year));
        TakeKeepsNonNegative(Take(st.quota, Year(ads[0].year)), Total);
        ScanKeepsNonNegative(cfg, job, registry, ads[1..], Admit(cfg, st, ads[0], text, j));
    }
  }

  /**
   * Samples are only appended, and every sample emitted is matched by exactly
   * one unit taken from 'total' and one step of the file counter.
   */
  lemma {:induction false} ScanExtends(cfg: Settings, job: FileJob, registry: set<string>, ads: seq<Ad>, st: State)
    ensures var r := Scan(cfg, job, registry, ads, st);
      && |st.samples| <= |r.samples| && r.samples[..|st.samples|] == st.samples
      && |r.samples| - |st.samples| == r.extracted - st.extracted
      && |r.samples| - |st.samples| == Remaining(st.quota, Total) - Remaining(r.quota, Total)
    decreases |ads|
  {
    if |ads| > 0 {
      match Judge(cfg, job, registry, st, ads[0])
      case Stop(_) =>
      case Skip(_) =>
        ScanExtends(cfg, job, registry, ads[1..], st);
      case Accept(text, j) =>
        var st' := Admit(cfg, st, ads[0], text, j);
        assert Scan(cfg, job, registry, ads, st) == Scan(cfg, job, registry, ads[1..], st');
        ScanExtends(cfg, job, registry, ads[1..], st');
        var r := Scan(cfg, job, registry, ads[1..], st');
        assert r.samples[..|st.samples|] == r.samples[..|st'.samples|][..|st.samples|];
    }
  }

  /** Per year, the samples emitted match the units taken from that year's quota. */
  lemma {:induction false} ScanAccounts(cfg: Settings, job: FileJob, registry: set<string>, ads: seq<Ad>,
                                       st: State, y: int)
    ensures var r := Scan(cfg, job, registry, ads, st);
      CountYear(r.samples, y) - CountYear(st.samples, y) == Remaining(st.quota, Year(y)) - Remaining(r.quota, Year(y))
    decreases |ads|
  {
    if |ads| > 0 {
      match Judge(cfg, job, registry, st, ads[0])
      case Stop(_) =>
      case Skip(_) =>
        ScanAccounts(cfg, job, registry, ads[1..], st, y);
      case Accept(text, j) =>
        var st' := Admit(cfg, st, ads[0], text, j);
        assert Scan(cfg, job, registry, ads, st) == Scan(cfg, job, registry, ads[1..], st');
        var s := Emitted(cfg, ads[0], text);
        assert st'.samples == st.samples + [s];
        CountYearSnoc(st.samples, s, y);
        ScanAccounts(cfg, job, registry, ads[1..], st', y);
    }
  }

  /**
   * Single use: every sample emitted costs exactly one entry of the term
   * list, and the list only ever loses entries.
   */
  lemma {:induction false} ScanUsesTerms(cfg: Settings, job: FileJob, registry: set<string>, ads: seq<Ad>, st: State)
    ensures var r := Scan(cfg, job, registry, ads, st);
      && |r.samples| - |st.samples| == |st.terms| - |r.terms|
      && multiset(r.terms) <= multiset(st.terms)
    decreases |ads|
  {
    if |ads| > 0 {
      match Judge(cfg, job, registry, st, ads[0])
      case Stop(_) =>
      case Skip(_) =>
        ScanUsesTerms(cfg, job, registry, ads[1..], st);
      case Accept(text, j) =>
        AdmitUsesOneTerm(cfg, st, ads[0], text, j);
        ScanUsesTerms(cfg, job, registry, ads[1..], Admit(cfg, st, ads[0], text, j));
    }
  }

  /** Some entry of `terms` occurs in `text` as a standalone token. */
  ghost predicate MatchesSomeTerm(terms: seq<string>, text: string) {
    exists t :: t in terms && Matches(t, text)
  }

  /**
   * A sample emitted at an ad of `ads`, meeting every acceptance condition,
   * whose text holds a term of the list `terms` as a standalone token.
   */
  ghost predicate TakenFrom(cfg: Settings, registry: set<string>, terms: seq<string>, ads: seq<Ad>, s: Sample) {
    && WellFormed(s, cfg.source, registry)
    && s.category == TermBased
    && MatchesSomeTerm(terms, s.text)
    && exists k :: 0 <= k < |ads| && FromAd(cfg, ads[k], s)
  }

  /** `s` is the sample written for `ad`, carrying the text extracted from it. */
  ghost predicate FromAd(cfg: Settings, ad: Ad, s: Sample) {
    && s == Emitted(cfg, ad, s.text)
    && ExtractTokenClipped(ad.tokens, cfg.zones, cfg.threshold) == Some(s.text)
  }

  /** Every sample the loop emits comes from the file, meets the filters and matched a term. */
  lemma {:induction false} ScanEmitsEligible(cfg: Settings, job: FileJob, registry: set<string>, ads: seq<Ad>,
                                            st: State)
    ensures var r := Scan(cfg, job, registry, ads, st);
      forall i :: |st.samples| <= i < |r.samples| ==> TakenFrom(cfg, registry, st.terms, ads, r.samples[i])
    decreases |ads|
  {
    if |ads| > 0 {
      match Judge(cfg, job, registry, st, ads[0])
      case Stop(_) =>
      case Skip(_) =>
        ScanEmitsEligible(cfg, job, registry, ads[1..], st);
        var r := Scan(cfg, job, registry, ads, st);
        assert r == Scan(cfg, job, registry, ads[1..], st);
        forall i | |st.samples| <= i < |r.samples|
          ensures TakenFrom(cfg, registry, st.terms, ads, r.samples[i])
        {
          var k :| 0 <= k < |ads[1..]| && FromAd(cfg, ads[1..][k], r.samples[i]);
          assert ads[1..][k] == ads[k + 1];
        }
      case Accept(text, j) =>
        var st' := Admit(cfg, st, ads[0], text, j);
        ScanEmitsEligible(cfg, job, registry, ads[1..], st');
        ScanExtends(cfg, job, registry, ads[1..], st');
        var r := Scan(cfg, job, registry, ads, st);
        assert r == Scan(cfg, job, registry, ads[1..], st');
        forall i | |st.samples| <= i < |r.samples|
          ensures TakenFrom(cfg, registry, st.terms, ads, r.samples[i])
        {
          if i == |st.samples| {
            AcceptFacts(cfg, job, registry, st, ads[0], text, j);
            assert r.samples[i] == st'.samples[i] == Emitted(cfg, ads[0], text);
            assert st.terms[j] in st.terms;
            assert FromAd(cfg, ads[0], r.samples[i]);
          } else {
            var k :| 0 <= k < |ads[1..]| && FromAd(cfg, ads[1..][k], r.samples[i]);
            assert ads[1..][k] == ads[k + 1];
            AdmitUsesOneTerm(cfg, st, ads[0], text, j);
            var t :| t in st'.terms && Matches(t, r.samples[i].text);
            assert t in st.terms;
          }
        }
    }
  }

  /** An x28 file never yields more than `FileCap` acceptances. */
  lemma {:induction false} ScanRespectsFileCap(cfg: Settings, job: FileJob, registry: set<string>, ads: seq<Ad>,
                                              st: State)
    requires cfg.source == CappedSource
    requires st.extracted <= FileCap
    ensures Scan(cfg, job, registry, ads, st).extracted <= FileCap
    decreases |ads|
  {
    if |ads| > 0 {
      match Judge(cfg, job, registry, st, ads[0])
      case Stop(_) =>
      case Skip(_) =>
        ScanRespectsFileCap(cfg, job, registry, ads[1..], st);
      case Accept(text, j) =>
        ScanRespectsFileCap(cfg, job, registry, ads[1..], Admit(cfg, st, ads[0], text, j));
    }
  }

  /** Once the term list is used up the rest of the file changes nothing. */
  lemma {:induction false} ScanIdleWithoutTerms(cfg: Settings, job: FileJob, registry: set<string>, ads: seq<Ad>,
                                               st: State)
    requires st.terms == []
    ensures Scan(cfg, job, registry, ads, st) == st
    decreases |ads|
  {
    if |ads| > 0 {
      EmptyTermsNeverAccept(cfg, job, registry, st, ads[0]);
      ScanIdleWithoutTerms(cfg, job, registry, ads[1..], st);
    }
  }

  /**
   * Single use: with the one-term list `[t]`, the first ad taken consumes
   * `t`, and no later ad of the file is taken, however well it matches.
   */
  lemma SingleTermTakenOnce(cfg: Settings, job: FileJob, registry: set<string>, ads: seq<Ad>, st: State,
                            text: string)
    requires |ads| > 0 && |st.terms| == 1
    ensures Judge(cfg, job, registry, st, ads[0]) == Accept(text, 0) ==>
      && Scan(cfg, job, registry, ads, st).terms == []
      && Scan(cfg, job, registry, ads, st).samples == st.samples + [Emitted(cfg, ads[0], text)]
  {
    if Judge(cfg, job, registry, st, ads[0]) == Accept(text, 0) {
      var st' := Admit(cfg, st, ads[0], text, 0);
      assert st'.terms == [];
      ScanIdleWithoutTerms(cfg, job, registry, ads[1..], st');
    }
  }

  /**
   * With distinct ads in the file, no sample id repeats, provided the samples
   * already emitted share no id with the ads still to come.
   */
  lemma {:induction false} ScanDistinct(cfg: Settings, job: FileJob, registry: set<string>, ads: seq<Ad>, st: State)
    requires DistinctAds(ads)
    requires DistinctIds(st.samples)
    requires forall i, k :: 0 <= i < |st.samples| && 0 <= k < |ads| ==> st.samples[i].id != AdId(cfg.source, ads[k])
    ensures DistinctIds(Scan(cfg, job, registry, ads, st).samples)
    decreases |ads|
  {
    if |ads| > 0 {
      var rest := ads[1..];
      assert DistinctAds(rest) by {
        forall i, j | 0 <= i < j < |rest|
          ensures rest[i].localId != rest[j].localId
        {
          assert rest[i] == ads[i + 1] && rest[j] == ads[j + 1];
        }
      }
      match Judge(cfg, job, registry, st, ads[0])
      case Stop(_) =>
      case Skip(_) =>
        ScanDistinct(cfg, job, registry, rest, st);
      case Accept(text, j) =>
        var st' := Admit(cfg, st, ads[0], text, j);
        var s := Emitted(cfg, ads[0], text);
        assert st'.samples == st.samples + [s];
        forall i, k | 0 <= i < |st'.samples| && 0 <= k < |rest|
          ensures st'.samples[i].id != AdId(cfg.source, rest[k])
        {
          assert rest[k] == ads[k + 1];
          if i == |st.samples| && s.id == AdId(cfg.source, rest[k]) {
            AdIdInjective(cfg.source, ads[0], ads[k + 1]);
          }
        }
        ScanDistinct(cfg, job, registry, rest, st');
    }
  }

  /**
   * Because the in-file duplicate list is always empty and the registry is
   * not extended during a call, the same ad met twice in one file is taken
   * twice while the quotas and a second matching term last.
   */
  lemma DuplicateTakenTwice(cfg: Settings, job: FileJob, registry: set<string>, st: State, ad: Ad, text: string,
                            j: nat)
    ensures (&& Judge(cfg, job, registry, st, ad) == Accept(text, j)
             && Remaining(st.quota, Total) >= 2 && Remaining(st.quota, Year(ad.year)) >= 2
             && cfg.source != CappedSource
             && FirstMatch(Admit(cfg, st, ad, text, j).terms, text).Some?) ==>
      var r := Scan(cfg, job, registry, [ad, ad], st);
      |r.samples| == |st.samples| + 2 && r.samples[|st.samples|].id == r.samples[|st.samples| + 1].id
  {
    if && Judge(cfg, job, registry, st, ad) == Accept(text, j)
       && Remaining(st.quota, Total) >= 2 && Remaining(st.quota, Year(ad.year)) >= 2
       && cfg.source != CappedSource
       && FirstMatch(Admit(cfg, st, ad, text, j).terms, text).Some?
    {
      var st' := Admit(cfg, st, ad, text, j);
      assert [ad, ad][1..] == [ad];
      assert Scan(cfg, job, registry, [ad, ad], st) == Scan(cfg, job, registry, [ad], st');
      var j' := SecondVisitAccepted(cfg, job, registry, st, ad, text, j);
      assert [ad][1..] == [];
      assert Scan(cfg, job, registry, [ad], st') == Admit(cfg, st', ad, text, j');
    }
  }

  /** The second visit of an accepted ad meets the same checks and is taken on the next matching term. */
  lemma SecondVisitAccepted(cfg: Settings, job: FileJob, registry: set<string>, st: State, ad: Ad, text: string,
                            j: nat) returns (j': nat)
    ensures (&& Judge(cfg, job, registry, st, ad) == Accept(text, j)
             && Remaining(st.quota, Total) >= 2 && Remaining(st.quota, Year(ad.year)) >= 2
             && cfg.source != CappedSource
             && FirstMatch(Admit(cfg, st, ad, text, j).terms, text).Some?) ==>
      Judge(cfg, job, registry, Admit(cfg, st, ad, text, j), ad) == Accept(text, j')
  {
    j' := 0;
    if && Judge(cfg, job, registry, st, ad) == Accept(text, j)
       && Remaining(st.quota, Total) >= 2 && Remaining(st.quota, Year(ad.year)) >= 2
       && cfg.source != CappedSource
       && FirstMatch(Admit(cfg, st, ad, text, j).terms, text).Some?
    {
      var st' := Admit(cfg, st, ad, text, j);
      AcceptFacts(cfg, job, registry, st, ad, text, j);
      j' := FirstMatch(st'.terms, text).value;
      assert Remaining(st'.quota, Total) != 0 && Remaining(st'.quota, Year(ad.year)) != 0;
    }
  }

  // ---------------------------------------------------------------------------
  // One call, and consecutive calls over the files of one source
  // ---------------------------------------------------------------------------

  /**
   * A skipped file changes nothing; otherwise each sample meets the filters,
   * is paid for by exactly one unit of 'total' and one term, and the quota
   * stays non-negative.
   */
  lemma SampleAdsSummary(cfg: Settings, job: FileJob, registry: set<string>, quota: map<QuotaKey, int>,
                         terms: seq<string>)
    requires NonNegative(quota)
    ensures var r := SampleAds(cfg, job, registry, quota, terms);
      && (!ShouldParse(cfg.source, job.fileYear, quota) ==> r == Start(quota, terms))
      && NonNegative(r.quota)
      && |r.samples| == Remaining(quota, Total) - Remaining(r.quota, Total)
      && |r.samples| == r.extracted
      && |r.samples| == |terms| - |r.terms|
      && multiset(r.terms) <= multiset(terms)
      && (cfg.source == CappedSource ==> |r.samples| <= FileCap)
      && (forall i :: 0 <= i < |r.samples| ==> TakenFrom(cfg, registry, terms, job.ads, r.samples[i]))
      && (DistinctAds(job.ads) ==> DistinctIds(r.samples))
  {
    var st := Start(quota, terms);
    if ShouldParse(cfg.source, job.fileYear, quota) {
      ScanKeepsNonNegative(cfg, job, registry, job.ads, st);
      ScanExtends(cfg, job, registry, job.ads, st);
      ScanUsesTerms(cfg, job, registry, job.ads, st);
      ScanEmitsEligible(cfg, job, registry, job.ads, st);
      if cfg.source == CappedSource {
        ScanRespectsFileCap(cfg, job, registry, job.ads, st);
      }
      if DistinctAds(job.ads) {
        ScanDistinct(cfg, job, registry, job.ads, st);
      }
    }
  }

  /** The state carried from one file of a source to the next. */
  datatype Run = Run(quota: map<QuotaKey, int>, terms: seq<string>, registry: set<string>, samples: seq<Sample>)

  /**
   * Consecutive calls over the files of one source. Each call re-reads the id
   * file, which by then holds the ids of every earlier acceptance; the term
   * list is shared by all calls.
   */
  function SampleFiles(cfg: Settings, jobs: seq<FileJob>, run: Run): Run
    decreases |jobs|
  {
    if |jobs| == 0 then run
    else
      var out := SampleAds(cfg, jobs[0], run.registry, run.quota, run.terms);
      SampleFiles(cfg, jobs[1..], Run(out.quota, out.terms, run.registry + Ids(out.samples), run.samples + out.samples))
  }

  /**
   * The cross-file dedup invariant: when no file holds the same ad twice, no
   * id is sampled twice over the whole source, none of them was in the id
   * file when the run began, every sample used up one term, and the quota
   * never goes negative.
   */
  lemma {:induction false} SampleFilesDedup(cfg: Settings, jobs: seq<FileJob>, run: Run)
    requires forall j :: 0 <= j < |jobs| ==> DistinctAds(jobs[j].ads)
    requires DistinctIds(run.samples) && Ids(run.samples) <= run.registry
    requires NonNegative(run.quota)
    ensures var r := SampleFiles(cfg, jobs, run);
      && DistinctIds(r.samples)
      && Ids(r.samples) <= r.registry
      && run.registry <= r.registry
      && |run.samples| <= |r.samples| && r.samples[..|run.samples|] == run.samples
      && (forall i :: |run.samples| <= i < |r.samples| ==> r.samples[i].id !in run.registry)
      && |r.samples| - |run.samples| == |run.terms| - |r.terms|
      && NonNegative(r.quota)
    decreases |jobs|
  {
    if |jobs| > 0 {
      var out := SampleAds(cfg, jobs[0], run.registry, run.quota, run.terms);
      SampleAdsSummary(cfg, jobs[0], run.registry, run.quota, run.terms);
      var all := run.samples + out.samples;
      forall i | 0 <= i < |out.samples|
        ensures out.samples[i].id !in run.registry
      {
        assert WellFormed(out.samples[i], cfg.source, run.registry);
      }
      AppendFresh(run.samples, out.samples, run.registry);
      var next := Run(out.quota, out.terms, run.registry + Ids(out.samples), all);
      SampleFilesDedup(cfg, jobs[1..], next);
      var r := SampleFiles(cfg, jobs, run);
      assert r == SampleFiles(cfg, jobs[1..], next);
      assert r.samples[..|run.samples|] == all[..|run.samples|];
      forall i | |run.samples| <= i < |r.samples|
        ensures r.samples[i].id !in run.registry
      {
        if i < |all| {
          assert r.samples[i] == r.samples[..|all|][i] == all[i] == out.samples[i - |run.samples|];
        }
      }
    }
  }
}
