/**
 * What the two `sample_ads` loops share: ads, the accepted samples they
 * emit, the fixed eligibility constants, the reasons an ad is passed over,
 * and the file-level pre-check.
 */
module Sampling {
  import opened Quota
  import opened Zones

  /** Only ads in this language are sampled. */
  const Language: string := "de"
  /** Ads older than this year are never sampled. */
  const MinYear: int := 2001
  /** Bounds on the extracted text's length, inclusive. */
  const MinLength: int := 200
  const MaxLength: int := 2500
  /** The only source whose files are read without the file-level pre-check. */
  const UncheckedSource: string := "sjmm"
  /** The only source whose files are capped at a few acceptances each. */
  const CappedSource: string := "x28"

  /** One `<ad>` element: its local id, year, language and token stream. */
  datatype Ad = Ad(localId: string, year: int, lang: string, tokens: seq<Token>)

  /** The per-source parameters of `sample_ads` that decide what is taken. */
  datatype Settings = Settings(source: string, zones: set<int>, threshold: int)

  /**
   * One call's file: the year its name carries (used by the pre-check for
   * sources other than sjmm), whether it spans several years, and its ads in
   * the already-shuffled order.
   */
  datatype FileJob = FileJob(fileYear: int, multiYear: bool, ads: seq<Ad>)

  /** The category column of the id file: a topic id, or 'ICT-term-based'. */
  datatype Label = TopicLabel(topic: int) | TermBased

  /**
   * One accepted ad: the fields of its JSON line (`id`, `text`, `meta`) and
   * the category written next to its id in the id file.
   */
  datatype Sample = Sample(id: string, text: string, year: int, source: string, lang: string, category: Label)

  /** Why an ad was passed over or why the file was left. */
  datatype Reason =
    | NoTopic            // no dominant topic, or not a configured topic
    | TopicExhausted     // its topic's quota is used up
    | TotalExhausted     // the source's total quota is used up
    | YearExhausted      // its year's quota is used up
    | FileCapReached     // the per-file cap of capped sources is reached
    | NotGerman
    | TooOld
    | DuplicateInFile
    | AlreadySampled     // its id is in the id file
    | NoZoneText         // extraction gave nothing
    | BadLength
    | NoTermMatch        // no term of the list occurs in the text

  /** What the loop does with one ad: take it, go on to the next, or leave the file. */
  datatype Verdict<C> = Accept(text: string, choice: C) | Skip(reason: Reason) | Stop(reason: Reason)

  /** `source + '-' + ad.get('id')`. */
  function AdId(source: string, ad: Ad): string {
    source + "-" + ad.localId
  }

  /** `200 <= len(extracted_text) <= 2500`. */
  predicate LengthOk(text: string) {
    MinLength <= |text| <= MaxLength
  }

  /**
   * The file-level pre-check: a file of a source other than sjmm is not
   * opened at all when its year's quota or the total quota is 0.
   */
  predicate ShouldParse(source: string, fileYear: int, quota: map<QuotaKey, int>) {
    source == UncheckedSource || (Remaining(quota, Year(fileYear)) != 0 && Remaining(quota, Total) != 0)
  }

  /** Number of samples from year `y`. */
  function CountYear(samples: seq<Sample>, y: int): nat
    decreases |samples|
  {
    if |samples| == 0 then 0
    else CountYear(samples[..|samples| - 1], y) + (if samples[|samples| - 1].year == y then 1 else 0)
  }

  /** Number of samples in category `cat`. */
  function CountCategory(samples: seq<Sample>, cat: Label): nat
    decreases |samples|
  {
    if |samples| == 0 then 0
    else CountCategory(samples[..|samples| - 1], cat) + (if samples[|samples| - 1].category == cat then 1 else 0)
  }

  /** The ids of `samples`: what the id file holds for them once they are written. */
  function Ids(samples: seq<Sample>): (ids: set<string>)
    ensures forall s :: s in samples ==> s.id in ids
    ensures forall id :: id in ids ==> exists s :: s in samples && s.id == id
  {
    set s | s in samples :: s.id
  }

  /** No id occurs twice. */
  ghost predicate DistinctIds(samples: seq<Sample>) {
    forall i, j :: 0 <= i < j < |samples| ==> samples[i].id != samples[j].id
  }

  /** No two ads of a file share a local id. */
  ghost predicate DistinctAds(ads: seq<Ad>) {
    forall i, j :: 0 <= i < j < |ads| ==> ads[i].localId != ads[j].localId
  }

  /** The properties every emitted sample has, whatever the variant. */
  ghost predicate WellFormed(s: Sample, source: string, registry: set<string>) {
    && s.id !in registry
    && LengthOk(s.text)
    && s.lang == Language
    && s.year >= MinYear
    && s.source == source
  }

  /**
   * Appending the samples of one call to those of earlier calls: when the new
   * ids are distinct among themselves and none was in the id file, which
   * already held every earlier id, the ids stay distinct and the id file,
   * extended by the new ids, holds them all.
   */
  lemma AppendFresh(prev: seq<Sample>, out: seq<Sample>, registry: set<string>)
    requires DistinctIds(prev) && Ids(prev) <= registry
    requires DistinctIds(out)
    requires forall i :: 0 <= i < |out| ==> out[i].id !in registry
    ensures DistinctIds(prev + out)
    ensures Ids(prev + out) <= registry + Ids(out)
  {
    var all := prev + out;
    forall i, j | 0 <= i < j < |all|
      ensures all[i].id != all[j].id
    {
      if j >= |prev| {
        assert all[j] == out[j - |prev|];
        if i < |prev| {
          assert all[i] in prev;
        } else {
          assert all[i] == out[i - |prev|];
        }
      }
    }
    forall id | id in Ids(all)
      ensures id in registry + Ids(out)
    {
      var s :| s in all && s.id == id;
      if s !in prev {
        assert s in out;
      }
    }
  }

  lemma CountYearSnoc(samples: seq<Sample>, s: Sample, y: int)
    ensures CountYear(samples + [s], y) == CountYear(samples, y) + (if s.year == y then 1 else 0)
  {
    assert (samples + [s])[..|samples|] == samples;
  }

  lemma CountCategorySnoc(samples: seq<Sample>, s: Sample, cat: Label)
    ensures CountCategory(samples + [s], cat) == CountCategory(samples, cat) + (if s.category == cat then 1 else 0)
  {
    assert (samples + [s])[..|samples|] == samples;
  }

  /** Distinct ad ids give distinct sample ids: `AdId` is injective for a fixed source. */
  lemma AdIdInjective(source: string, a: Ad, b: Ad)
    requires AdId(source, a) == AdId(source, b)
    ensures a.localId == b.localId
  {
    var n := |source| + 1;
    assert AdId(source, a)[n..] == a.localId;
    assert AdId(source, b)[n..] == b.localId;
  }
}
