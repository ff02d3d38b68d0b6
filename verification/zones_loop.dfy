/**
 * `extract_text` as the scripts write it: one pass over the tokens that grows
 * the seed set, moves `last_position` and recomputes the whole window after
 * every token once a seed has been seen, followed by a second pass that
 * concatenates the texts of the selected positions. Only the window computed
 * after the last token survives, so this loop agrees with the single-pass
 * functions of `Zones`.
 */
module ZoneLoop {
  import opened Wrappers
  import opened Zones

  /** Which copy of `extract_text`: the topic script's or the keyword script's. */
  datatype Clip = AtLastSeed | AtLastToken

  /** The value `last_position` holds after the tokens `doc` have been scanned. */
  function ClipPoint(doc: seq<Token>, zones: set<int>, clip: Clip): Option<int> {
    match clip
    case AtLastSeed => LastSeed(doc, zones)
    case AtLastToken => LastPosition(doc)
  }

  /** The window of seed `s` after the first `n` rounds of `for i in range(threshold + 1)`. */
  ghost predicate CoveredWithin(s: int, p: int, last: int, n: int) {
    || (s <= p < s + n && p <= last)
    || (s - n < p <= s && p > 0)
  }

  /** Adding one seed adds exactly that seed's window. */
  lemma InWindowAddSeed(p: int, done: set<int>, s: int, last: int, threshold: int)
    ensures InWindow(p, done + {s}, last, threshold) <==>
      InWindow(p, done, last, threshold) || Covers(s, p, last, threshold)
  {
    if InWindow(p, done + {s}, last, threshold) {
      var s' :| s' in done + {s} && Covers(s', p, last, threshold);
      if s' != s {
        assert s' in done;
      }
    }
    if InWindow(p, done, last, threshold) {
      var s' :| s' in done && Covers(s', p, last, threshold);
      assert s' in done + {s};
    }
    if Covers(s, p, last, threshold) {
      assert s in done + {s};
    }
  }

  /**
   * The inner loop over `range(threshold + 1)` for one seed `s`: it adds
   * exactly the window of `s` to the positions selected so far.
   */
  method WidenSeed(sel: set<int>, s: int, last: int, threshold: int) returns (sel': set<int>)
    ensures forall p :: p in sel' <==> p in sel || Covers(s, p, last, threshold)
  {
    sel' := sel;
    var i := 0;
    while i < threshold + 1
      invariant 0 <= i
      invariant threshold >= 0 ==> i <= threshold + 1
      invariant threshold < 0 ==> i == 0
      invariant forall p :: p in sel' <==> p in sel || CoveredWithin(s, p, last, i)
    {
      if s + i <= last {
        sel' := sel' + {s + i};
      }
      if s - i > 0 {
        sel' := sel' + {s - i};
      }
      i := i + 1;
    }
    assert forall p :: CoveredWithin(s, p, last, i) <==> Covers(s, p, last, threshold);
  }

  /**
   * The double loop over seeds and `range(threshold + 1)` that builds
   * `pos_selected_all`: it yields exactly the positions in some seed's window.
   */
  method ExpandSeeds(seeds: set<int>, last: int, threshold: int) returns (sel: set<int>)
    ensures forall p :: p in sel <==> InWindow(p, seeds, last, threshold)
    // backward widening (`index > 0`) never selects a position <= 0
    ensures forall p :: p in sel && p <= 0 ==> exists s :: s in seeds && s <= p <= s + threshold && p <= last
  {
    sel := {};
    var rest := seeds;
    ghost var done: set<int> := {};
    while rest != {}
      invariant done + rest == seeds
      invariant done !! rest
      invariant forall p :: p in sel <==> InWindow(p, done, last, threshold)
      decreases |rest|
    {
      NonEmptyHasElement(rest);
      var s :| s in rest;
      sel := WidenSeed(sel, s, last, threshold);
      forall p
        ensures p in sel <==> InWindow(p, done + {s}, last, threshold)
      {
        InWindowAddSeed(p, done, s, last, threshold);
      }
      done := done + {s};
      rest := rest - {s};
    }
  }

  lemma NonEmptyHasElement(xs: set<int>)
    requires xs != {}
    ensures exists x :: x in xs
  {
    if forall x :: x !in xs {
      assert false;
    }
  }

  lemma JoinSnoc(ts: seq<Token>, t: Token)
    ensures Join(ts + [t]) == Join(ts) + t.text
  {
    assert (ts + [t])[..|ts|] == ts;
  }

  /**
   * The first pass of `extract_text`: seed set, `last_position`, and the
   * window recomputed after every token once some seed has been seen.
   */
  method ScanSeeds(doc: seq<Token>, zones: set<int>, threshold: int, clip: Clip)
    returns (seeds: set<int>, last: Option<int>, sel: set<int>)
    ensures seeds == Seeds(doc, zones)
    ensures last == ClipPoint(doc, zones, clip)
    ensures seeds != {} ==> last.Some? && forall p :: p in sel <==> InWindow(p, seeds, last.value, threshold)
  {
    seeds, last, sel := {}, None, {};
    var k := 0;
    while k < |doc|
      invariant 0 <= k <= |doc|
      invariant seeds == Seeds(doc[..k], zones)
      invariant last == ClipPoint(doc[..k], zones, clip)
      invariant seeds != {} ==> last.Some? && forall p :: p in sel <==> InWindow(p, seeds, last.value, threshold)
    {
      var t := doc[k];
      if IsSeed(t, zones) {
        seeds := seeds + {t.position};
        if clip == AtLastSeed {
          last := Some(t.position);
        }
      }
      if clip == AtLastToken {
        last := Some(t.position);
      }
      ScanStep(doc, k, zones, clip);
      k := k + 1;
      if |seeds| < 1 {
        continue;
      }
      sel := ExpandSeeds(seeds, last.value, threshold);
    }
    assert doc[..k] == doc;
  }

  /** How one more token moves the seed set and `last_position`. */
  lemma ScanStep(doc: seq<Token>, k: int, zones: set<int>, clip: Clip)
    requires 0 <= k < |doc|
    ensures Seeds(doc[..k + 1], zones) ==
      if IsSeed(doc[k], zones) then Seeds(doc[..k], zones) + {doc[k].position} else Seeds(doc[..k], zones)
    ensures ClipPoint(doc[..k + 1], zones, clip) ==
      if clip == AtLastToken || IsSeed(doc[k], zones) then Some(doc[k].position) else ClipPoint(doc[..k], zones, clip)
  {
    assert doc[..k + 1][..k] == doc[..k];
  }

  /** One step of the second pass: the text grows by the token's text exactly when it is selected. */
  lemma ConcatStep(doc: seq<Token>, j: int, sel: set<int>, seeds: set<int>, last: int, threshold: int)
    requires 0 <= j < |doc|
    requires forall p :: p in sel <==> InWindow(p, seeds, last, threshold)
    ensures Join(Kept(doc[..j + 1], seeds, last, threshold)) ==
      if doc[j].position in sel then Join(Kept(doc[..j], seeds, last, threshold)) + doc[j].text
      else Join(Kept(doc[..j], seeds, last, threshold))
  {
    KeptStep(doc, j, seeds, last, threshold);
    if doc[j].position in sel {
      JoinSnoc(Kept(doc[..j], seeds, last, threshold), doc[j]);
    }
  }

  /** The second pass: concatenate, in document order, the texts at selected positions. */
  method ConcatSelected(doc: seq<Token>, sel: set<int>, seeds: set<int>, last: int, threshold: int)
    returns (text: string)
    requires forall p :: p in sel <==> InWindow(p, seeds, last, threshold)
    ensures text == Join(Kept(doc, seeds, last, threshold))
  {
    text := "";
    var j := 0;
    assert doc[..0] == [];
    while j < |doc|
      invariant 0 <= j <= |doc|
      invariant text == Join(Kept(doc[..j], seeds, last, threshold))
    {
      ConcatStep(doc, j, sel, seeds, last, threshold);
      text := if doc[j].position in sel then text + doc[j].text else text;
      j := j + 1;
    }
    assert doc[..j] == doc;
  }

  /** Both copies of `extract_text`, loop for loop, agree with the single-pass model. */
  method ExtractAsWritten(doc: seq<Token>, zones: set<int>, threshold: int, clip: Clip)
    returns (r: Option<string>)
    ensures clip == AtLastSeed ==> r == ExtractSeedClipped(doc, zones, threshold)
    ensures clip == AtLastToken ==> r == ExtractTokenClipped(doc, zones, threshold)
  {
    var seeds, last, sel := ScanSeeds(doc, zones, threshold, clip);
    if |seeds| > 1 {
      var text := ConcatSelected(doc, sel, seeds, last.value, threshold);
      return Some(text);
    }
    return None;
  }
}
