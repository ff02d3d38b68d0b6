# ICT-term recognition: ad sampling, modelled in Dafny

This project models the engine shared by the two ad-sampling scripts of
ICTterm-recognition. One is the topic script, `extract_topic-based-samples.py`.
The other is the keyword script, `extract_sample-0.py`. The engine has three parts.

- **The windowed zone extractor** (`extract_text`). A job ad is a sequence of
  tokens, each with a position, a zone code and a text.
  - A token is a *seed* when its zone family (`zone // 10 * 10`) is one of the
    target zones (60 and 70 by default).
  - Each seed position is widened by `threshold` positions on either side.
    Forward widening stops at a clip position. Backward widening never reaches a
    position <= 0.
  - The result is the in-order concatenation of the texts of the tokens inside
    some window. There is no result when the ad has fewer than two distinct seed
    positions.
  - The topic script clips at the last *seed*. The keyword script clips at the
    last *token*. The model has one function per copy (`Zones`). It also has a
    loop-for-loop rendering of the scripts' two passes, proved equal to both
    (`ZoneLoop`).
- **The dominant-topic rule** (`get_topic_ids`). An ad's topic is the first
  entry of its topic list whose share is strictly above 0.4. An ad with no such
  entry has no topic (`Topics`).
- **The quota-driven acceptance loop** (`sample_ads`). It is a fold over the
  already-shuffled ads of one file.
  - The fold threads a per-source quota (per year and `total`, where a missing
    key reads as 0), the file's acceptance counter and the emitted samples.
  - The id registry is the set of ids read from the id file when the call
    starts.
  - The topic variant also threads a per-topic quota (`TopicSampler`). The
    keyword variant threads a single-use term list: the first term of the list
    found as `' ' + term + ' '` in the text is taken and removed (`Keywords`,
    `KeywordSampler`).
  - Both variants have the file-level pre-check that skips a non-sjmm file whose
    year or `total` is exhausted (`Sampling`).
  - Consecutive calls over the files of one source re-read the id file, so they
    are modelled as a fold over files.

Two behaviours of the code are modelled as written:

- The in-file duplicate list `ad_id_list` is re-created empty for every ad, so
  that check never rejects anything.
- The registry is not extended during a call, so the same ad met twice in one
  file is accepted twice while the quotas (and, in the keyword script, a second
  matching term) last.

On the extractor's worked example (tokens at positions 1..20, seeds 10 and 15,
threshold 2), positions 8..17 are selected only with the keyword script's clip
at the last token. The topic script clips at the last seed and selects 8..15.
The model follows the code. `Zones.ExampleDocExtraction` proves both
outcomes, and `Zones.ExampleTokenClippedText` and `Zones.ExampleSeedClippedText`
prove the exact texts the two extractors return for it. `Zones.ExampleAtDefaultThreshold`
does the same at the scripts' default threshold of 10.

Files: `wrappers.dfy` (Option), `quota.dfy`, `zones.dfy`, `zones_loop.dfy`,
`topics.dfy`, `keywords.dfy`, `sampling.dfy`, `topic_sampler.dfy`,
`keyword_sampler.dfy`.

## Model

| member | source | states |
|---|---|---|
| Zones.ZoneFamily | Scripts/extract_topic-based-samples.py:180 | the zone family is the multiple of ten at or just below the zone code |
| Zones.Seeds | Scripts/extract_topic-based-samples.py:175-181 | a position is a seed position iff some token at that position has its zone family in the target zones |
| Zones.LastPosition | Scripts/extract_sample-0.py:163-167 | the keyword script's `last_position` is updated on every token, so after the loop it is the position of the ad's last token; an ad with no token has none |
| Zones.LastSeed | Scripts/extract_topic-based-samples.py:176-182 | the topic script's `last_position` is absent iff there is no seed; otherwise it is the position of a seed token with no seed token after it |
| Zones.Kept | Scripts/extract_topic-based-samples.py:202-205 | a token is kept iff it is in the ad and its position lies in some seed's window; kept tokens are never more than the ad's tokens |
| Zones.ExtractSeedClipped | Scripts/extract_topic-based-samples.py:184-208 | the topic script's extractor returns nothing iff fewer than two distinct seed positions exist |
| Zones.ExtractTokenClipped | Scripts/extract_sample-0.py:169-193 | the keyword script's extractor returns nothing iff fewer than two distinct seed positions exist |
| Zones.SeedsAreKept | Scripts/extract_topic-based-samples.py:190-194 | for a non-negative threshold, every seed token with a positive position is kept, whatever the clip position (the `i == 0` step); with a negative threshold `range(threshold + 1)` is empty |
| Zones.SeedClipBound | Scripts/extract_topic-based-samples.py:180-192 | with sorted positions, the topic script keeps nothing past the last seed |
| Zones.WiderClipKeepsMore | Scripts/extract_sample-0.py:176-177 | a later clip position covers at least the same positions |
| Zones.SeedClipWithinTokenClip | Scripts/extract_sample-0.py:163-179 | with sorted positions, every token the topic script keeps is also kept by the keyword script |
| Zones.WindowExample | Scripts/extract_sample-0.py:172-179 | seeds 10 and 15 with threshold 2 cover exactly 8..17 when clipped at 20, and exactly 8..15 when clipped at 15 |
| Zones.ExampleDocExtraction | Scripts/extract_sample-0.py:160-191 | on a 20-token ad whose seeds sit at 10 and 15, with threshold 2: the last seed is 15, the last token is 20, the keyword script keeps exactly 8..17 and the topic script exactly 8..15 |
| Zones.KeptSlice | Scripts/extract_sample-0.py:186-191 | when the window holds exactly the tokens of one index range, the second pass keeps exactly that run of tokens, in order |
| Zones.ExampleTokenClippedText | Scripts/extract_sample-0.py:154-193 | on the example ad whose tokens spell 'a'..'t', with threshold 2, the keyword script returns exactly the letters of positions 8..17, "hijklmnopq" |
| Zones.ExampleSeedClippedText | Scripts/extract_topic-based-samples.py:168-208 | on the same ad, with threshold 2, the topic script returns exactly the letters of positions 8..15, "hijklmno" |
| Zones.ExampleAtDefaultThreshold | Scripts/extract_sample-0.py:19-20 | with the default zones (60, 70) and the default threshold 10, the lettered example ad yields its whole text, "a".."t", under the keyword script and only "a".."o", up to the last seed at 15, under the topic script (Scripts/extract_topic-based-samples.py:19-20 has the same defaults) |
| ZoneLoop.InWindowAddSeed | Scripts/extract_topic-based-samples.py:188-194 | adding one seed to the seed set adds exactly that seed's window to the selection |
| ZoneLoop.WidenSeed | Scripts/extract_topic-based-samples.py:190-194 | the loop over `range(threshold + 1)` adds exactly the window of one seed |
| ZoneLoop.ExpandSeeds | Scripts/extract_topic-based-samples.py:188-194 | the double loop over seeds yields exactly the union of the seeds' windows, and a selected position <= 0 can only have come from forward widening of a seed at or below it, since the backward branch requires `index > 0` |
| ZoneLoop.ScanSeeds | Scripts/extract_topic-based-samples.py:178-194 | the first pass ends with the seed set, the clip point of the chosen variant and, once a seed exists, exactly the window union |
| ZoneLoop.ConcatSelected | Scripts/extract_topic-based-samples.py:197-206 | the second pass concatenates the texts of exactly the kept tokens, in document order |
| ZoneLoop.ExtractAsWritten | Scripts/extract_sample-0.py:154-193 | the scripts' two-pass loops, with the window recomputed after every token, give the same result as the single-pass functions of each variant |
| Topics.FirstAbove | Scripts/extract_topic-based-samples.py:221-224 | the chosen index has share above the threshold and no earlier entry does; there is none iff no entry is above |
| Topics.DominantTopic | Scripts/extract_topic-based-samples.py:221-224 | an ad's topic is the topic of the entry `FirstAbove` picks; its properties are stated by `Topics.FirstAbove` and `Topics.DominantTopicSpec` |
| Topics.DominantTopicSpec | Scripts/extract_topic-based-samples.py:211-225 | an ad has no dominant topic iff no entry's share exceeds the threshold; otherwise its topic is that of the first entry above it |
| Topics.DominantTopicExamples | Scripts/extract_topic-based-samples.py:221-224 | the rule is first-above and not arg-max, and it is strict: a share of exactly 0.4 does not qualify |
| Topics.TopicMap | Scripts/extract_topic-based-samples.py:215-225 | an id gets an entry iff one of its lines has a dominant topic |
| Topics.TopicMapLastLine | Scripts/extract_topic-based-samples.py:217-223 | an id's entry is the dominant topic of its last line that has one, since later lines overwrite earlier ones |
| Topics.TopicOf | Scripts/extract_topic-based-samples.py:101 | the lookup `topic_dict[ad_id]`: an id with an entry gets its topic; a missing id reads as the `defaultdict(str)` default `''`, which is no configured topic, so it has none |
| Keywords.Contains | Scripts/extract_sample-0.py:137 | substring test: true iff the needle occurs at some index of the text |
| Keywords.FirstMatch | Scripts/extract_sample-0.py:136-137 | the chosen term occurs padded by spaces and no earlier term does; there is none iff no term occurs |
| Keywords.FirstMatchIs | Scripts/extract_sample-0.py:136-150 | index `j` is the first match iff term `j` occurs and no earlier term does |
| Keywords.IndexOf | Scripts/extract_sample-0.py:141 | `list.remove` finds the first entry equal to the term, and no earlier entry equals it |
| Keywords.RemoveFirst | Scripts/extract_sample-0.py:141 | `list.remove` drops exactly the first equal entry and keeps the rest in order |
| Keywords.RemoveFirstCounts | Scripts/extract_sample-0.py:141 | removal shortens the list by one and removes exactly one copy of the term |
| Keywords.RemoveMatchedTerm | Scripts/extract_sample-0.py:136-141 | removing the matched term removes exactly the matched entry, because an equal earlier entry would have matched first |
| Quota.Take | Scripts/extract_topic-based-samples.py:158-159 | `d[k] -= 1` takes exactly one unit from `k` and leaves every other key's count unchanged |
| Quota.TakeKeepsNonNegative | Scripts/extract_topic-based-samples.py:157-161 | taking from a key that still has budget keeps every count non-negative |
| Sampling.ShouldParse | Scripts/extract_topic-based-samples.py:50-57 | the file-level pre-check: sjmm files are always read; any other file is read only when neither its year's quota nor `total` is 0 (the same code is at Scripts/extract_sample-0.py:47-54) |
| Sampling.AdIdInjective | Scripts/extract_topic-based-samples.py:99 | within one source, equal sample ids come from equal ad ids |
| Sampling.AppendFresh | Scripts/extract_topic-based-samples.py:60-69 | appending one call's fresh, distinct ids to earlier ones keeps all ids distinct, and the id file then holds all of them |
| TopicSampler.Judge | Scripts/extract_topic-based-samples.py:94-164 | one loop iteration, with the checks in the script's order: topic, `total`, year, file cap, language and year floor, the two duplicate checks, then extraction and length; its meaning is stated by `TopicSampler.AcceptIff`, `TopicSampler.AcceptTaken`, `TopicSampler.LoopControl` and `TopicSampler.NoInFileRejection` |
| TopicSampler.Scan | Scripts/extract_topic-based-samples.py:94-164 | the `for ad in ad_list` loop: `continue` moves to the next ad, `break` returns the state, an acceptance admits the ad; its properties are the `Scan…` lemmas below |
| TopicSampler.SampleAds | Scripts/extract_topic-based-samples.py:50-164 | one call: a file the pre-check rejects returns the quotas unchanged, otherwise the loop runs from a zero file counter; stated by `TopicSampler.SampleAdsSummary` |
| TopicSampler.SampleFiles | Scripts/extract_topic-based-samples.py:60-69 | consecutive calls over a source's files, each re-reading an id file that now holds the ids emitted before; stated by `TopicSampler.SampleFilesDedup` |
| TopicSampler.Admit | Scripts/extract_topic-based-samples.py:153-164 | acceptance takes one unit from the year, `total` and the topic, nothing else; the file counter rises by one; one sample is appended, carrying the ad's id, the extracted text, the ad's year and language, the source and the topic |
| TopicSampler.AcceptIff | Scripts/extract_topic-based-samples.py:101-152 | with non-negative quotas, an ad is taken iff it has a dominant topic with budget left, `total` and its year have budget, the file cap is not reached, it is German and from 2001 or later, its id was not loaded, and its text is non-empty with length in 200..2500 |
| TopicSampler.AcceptTaken | Scripts/extract_topic-based-samples.py:101-164 | the sample written for an accepted ad passes every filter, is labelled with the ad's dominant topic, and carries exactly the ad's id, year, language and the text extracted from it |
| TopicSampler.LoopControl | Scripts/extract_topic-based-samples.py:113-125 | for an ad with a live topic: an exhausted `total` leaves the file; an exhausted year skips in a multi-year file and leaves otherwise; a full x28 file is left |
| TopicSampler.NoInFileRejection | Scripts/extract_topic-based-samples.py:129-138 | the in-file duplicate check never rejects an ad |
| TopicSampler.ScanKeepsNonNegative | Scripts/extract_topic-based-samples.py:157-161 | quotas that start non-negative stay non-negative over the whole file |
| TopicSampler.ScanExtends | Scripts/extract_topic-based-samples.py:155-160 | samples are only appended; each costs one unit of `total` and one step of the file counter |
| TopicSampler.ScanAccounts | Scripts/extract_topic-based-samples.py:157-161 | for every year and topic, the samples emitted for it equal the units taken from its quota |
| TopicSampler.ScanEmitsEligible | Scripts/extract_topic-based-samples.py:94-164 | every emitted sample is the record written for some ad of the file: the ad's id, year and language, the source, the text extracted from that ad, and the ad's dominant topic as its category; and it passes every filter |
| TopicSampler.ScanRespectsFileCap | Scripts/extract_topic-based-samples.py:82-125 | an x28 file never yields more than 5 acceptances |
| TopicSampler.ScanIdleWhenTotalExhausted | Scripts/extract_topic-based-samples.py:110-115 | once `total` is exhausted the rest of the file changes nothing |
| TopicSampler.ScanDistinct | Scripts/extract_topic-based-samples.py:94-99 | a file without repeated ads yields no repeated sample id |
| TopicSampler.SecondVisitAccepted | Scripts/extract_topic-based-samples.py:129-161 | an ad accepted once, with at least two units left in `total`, its year and its topic, passes every check again on a second visit (outside x28) |
| TopicSampler.DuplicateTakenTwice | Scripts/extract_topic-based-samples.py:137-142 | outside x28, with at least two units left in `total`, its year and its topic, an ad accepted once and met again right after is emitted twice |
| TopicSampler.SampleAdsSummary | Scripts/extract_topic-based-samples.py:50-164 | a file the pre-check skips changes nothing; otherwise quotas stay non-negative, each sample is paid for by `total`, x28 caps hold, every sample is the record of an ad of the file carrying the text extracted from it and passes the filters, and distinct ads give distinct ids |
| TopicSampler.SampleFilesDedup | Scripts/extract_topic-based-samples.py:60-69 | over consecutive files of one source, with no ad repeated inside a file: ids never repeat, none was in the id file at the start, and quotas stay non-negative |
| KeywordSampler.Judge | Scripts/extract_sample-0.py:136-150 | an accepted ad is taken on the first term of the list that occurs in its text |
| KeywordSampler.Scan | Scripts/extract_sample-0.py:91-150 | the `for ad in ad_list` loop: `continue` moves to the next ad, `break` returns the state, an acceptance admits the ad; its properties are the `Scan…` lemmas below |
| KeywordSampler.SampleAds | Scripts/extract_sample-0.py:47-150 | one call: a file the pre-check rejects returns the quota and terms unchanged, otherwise the loop runs from a zero file counter; stated by `KeywordSampler.SampleAdsSummary` |
| KeywordSampler.SampleFiles | Scripts/extract_sample-0.py:56-66 | consecutive calls over a source's files, each re-reading an id file that now holds the ids emitted before; stated by `KeywordSampler.SampleFilesDedup` |
| KeywordSampler.Admit | Scripts/extract_sample-0.py:138-146 | acceptance removes exactly the matched entry from the term list, takes one unit from the year and `total`, raises the file counter by one and appends one sample carrying the ad's id, the extracted text, the ad's year and language, and the source |
| KeywordSampler.AcceptIff | Scripts/extract_sample-0.py:99-150 | with non-negative quotas, an ad is taken on term `j` iff `total` and its year have budget, the file cap is not reached, it is German and from 2001 or later, its id was not loaded, its text has length 200..2500, and `j` is the first term occurring in the text |
| KeywordSampler.AcceptFacts | Scripts/extract_sample-0.py:99-137 | an acceptance implies every filter passed, whatever the quotas' signs |
| KeywordSampler.AdmitUsesOneTerm | Scripts/extract_sample-0.py:141 | an acceptance shortens the term list by one, drops one copy of the matched term, and adds no term |
| KeywordSampler.EmptyTermsNeverAccept | Scripts/extract_sample-0.py:136-137 | an empty term list never accepts |
| KeywordSampler.LoopControl | Scripts/extract_sample-0.py:98-110 | an exhausted `total` leaves the file; an exhausted year skips in a multi-year file and leaves otherwise; a full x28 file is left |
| KeywordSampler.NoInFileRejection | Scripts/extract_sample-0.py:114-123 | the in-file duplicate check never rejects an ad |
| KeywordSampler.ScanKeepsNonNegative | Scripts/extract_sample-0.py:144-145 | a quota that starts non-negative stays non-negative over the whole file |
| KeywordSampler.ScanExtends | Scripts/extract_sample-0.py:138-146 | samples are only appended; each costs one unit of `total` and one step of the file counter |
| KeywordSampler.ScanAccounts | Scripts/extract_sample-0.py:144 | for every year, the samples emitted for it equal the units taken from its quota |
| KeywordSampler.ScanUsesTerms | Scripts/extract_sample-0.py:136-141 | each sample costs exactly one entry of the term list; the list only loses entries, so rejections leave it unchanged |
| KeywordSampler.ScanEmitsEligible | Scripts/extract_sample-0.py:91-150 | every emitted sample is the record written for some ad of the file: the ad's id, year and language, the source and the text extracted from that ad; it passes every filter, and its text contains a term of the initial list |
| KeywordSampler.ScanRespectsFileCap | Scripts/extract_sample-0.py:79-110 | an x28 file never yields more than 3 acceptances |
| KeywordSampler.ScanIdleWithoutTerms | Scripts/extract_sample-0.py:136-141 | once the term list is used up the rest of the file changes nothing |
| KeywordSampler.SingleTermTakenOnce | Scripts/extract_sample-0.py:136-141 | with a one-term list, the first ad taken consumes the term and no later ad of the file is taken |
| KeywordSampler.ScanDistinct | Scripts/extract_sample-0.py:91-96 | a file without repeated ads yields no repeated sample id |
| KeywordSampler.SecondVisitAccepted | Scripts/extract_sample-0.py:114-146 | outside x28, with at least two units left in `total` and its year and a second term of the list still occurring in the text, an ad accepted once passes every check again on a second visit |
| KeywordSampler.DuplicateTakenTwice | Scripts/extract_sample-0.py:122-127 | outside x28, with at least two units left in `total` and its year and a second matching term, an ad accepted once and met again right after is emitted twice under the same id |
| KeywordSampler.SampleAdsSummary | Scripts/extract_sample-0.py:47-150 | a file the pre-check skips changes nothing; otherwise the quota stays non-negative, each sample costs one unit of `total` and one term, x28 caps hold, every sample is the record of an ad of the file carrying the text extracted from it and passes the filters, and distinct ads give distinct ids |
| KeywordSampler.SampleFilesDedup | Scripts/extract_sample-0.py:56-66 | over consecutive files of one source, with no ad repeated inside a file: ids never repeat, none was in the id file at the start, each sample used one term, and the quota stays non-negative |

## Left out

- XML and bz2 parsing. An ad is given as its local id, year, language and token sequence. A token whose `text` is `None` (a `TypeError` in the scripts) is not modelled, and neither is a non-numeric `year`, `position` or `zone` attribute.
- Reading and appending the id file, the JSONL output and `print`. The registry is an input set. The outputs are the returned sample sequence. Between files, the id file is modelled as the registry extended by the ids just emitted.
- `random.shuffle` of the ads and of the file lists, and `random.sample` of the x28 files. The ad order and the file sequence are inputs.
- The final shuffle pass in `main`. The two scripts differ here.
  - The topic script reads back the file its `sample_ads` appended to, `sample_{sample_name}.jsonl` (Scripts/extract_topic-based-samples.py:74 and :339). It writes the same lines in random order to `sample_{sample_name}_shuffled.jsonl`, so it only reorders them.
  - The keyword script's `sample_ads` appends to `sample_{sample_name}.jsonl` (Scripts/extract_sample-0.py:71). Its `main`, however, opens `{sample_name}.jsonl` (Scripts/extract_sample-0.py:282). So the sampled output is never shuffled. When no file of that name exists, `main` ends with `FileNotFoundError` after all sampling is done.
- The filename regular expression that yields a file's year for the pre-check. The year is a field of the file job.
- `main`: paths, per-source quota tables, reading the term file, and the order in which sources are processed. Each source is modelled as a fold over its files. The term list and, in the topic script, the topic quota are threaded from one file to the next.
- `defaultdict(int)` inserting a key on read. It changes no count, so a missing key simply reads as 0.
- Floating-point topic shares. They are modelled as reals; only the strict comparison with the threshold is used.
- The unused `counter` variable of the loop.
- The id file's columns other than the id and the category. Both scripts write the sample name, source and year. Only the topic script also writes the input path (Scripts/extract_topic-based-samples.py:164); the keyword script's line has no path column (Scripts/extract_sample-0.py:149). The scripts read back only the id column (Scripts/extract_topic-based-samples.py:63, Scripts/extract_sample-0.py:60), so the other columns do not affect what is sampled.
- The output file's name. The JSON lines are modelled as the returned samples.
- Zones.SeedClipBound and Zones.SeedClipWithinTokenClip: stated only for ads whose token positions are non-decreasing in document order. The scripts make no promise for unsorted positions.
- KeywordSampler.DuplicateTakenTwice: states that two samples with the same id are emitted, but not which terms they consume.
