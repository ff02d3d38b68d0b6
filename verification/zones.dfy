/**
 * The zone extractor shared by both sampling scripts (`extract_text`).
 *
 * A document is a sequence of tokens in document order. A token is a seed
 * when its zone family lies in the target zone set. Every seed position is
 * widened by a window of `threshold` positions on either side; the result is
 * the in-order concatenation of the texts of all tokens whose position falls
 * in some window. Forward widening stops at a clip position, and backward
 * widening never reaches a position <= 0.
 *
 * The two scripts differ only in the clip position: the topic script clips at
 * the position of the last seed, the keyword script at the position of the
 * last token.
 */
module Zones {
  import opened Wrappers

  /** Defaults of `sample_ads`: zones 60 and 70, ten positions around them. */
  const DefaultZones: set<int> := {60, 70}
  const DefaultThreshold: int := 10

  datatype Token = Token(position: int, zone: int, text: string)

  /** Python's `zone // 10 * 10`: the multiple of ten at or just below `zone`. */
  function ZoneFamily(zone: int): (f: int)
    ensures f % 10 == 0
    ensures f <= zone < f + 10
  {
    zone / 10 * 10
  }

  predicate IsSeed(t: Token, zones: set<int>) {
    ZoneFamily(t.zone) in zones
  }

  /** Positions are non-decreasing in document order. */
  ghost predicate Sorted(doc: seq<Token>) {
    forall i, j :: 0 <= i < j < |doc| ==> doc[i].position <= doc[j].position
  }

  /** The set of seed positions of `doc`. */
  function Seeds(doc: seq<Token>, zones: set<int>): (s: set<int>)
    ensures forall p :: p in s <==>
      exists i :: 0 <= i < |doc| && IsSeed(doc[i], zones) && doc[i].position == p
    decreases |doc|
  {
    if |doc| == 0 then {}
    else
      var rest := Seeds(doc[..|doc| - 1], zones);
      assert forall i :: 0 <= i < |doc| - 1 ==> doc[..|doc| - 1][i] == doc[i];
      if IsSeed(doc[|doc| - 1], zones) then rest + {doc[|doc| - 1].position} else rest
  }

  /** `doc[i]` is a seed and no later token is. */
  ghost predicate IsLastSeedAt(doc: seq<Token>, zones: set<int>, i: int) {
    && 0 <= i < |doc|
    && IsSeed(doc[i], zones)
    && forall j :: i < j < |doc| ==> !IsSeed(doc[j], zones)
  }

  /** The position of the last seed in document order (`last_position` of the topic script). */
  function LastSeed(doc: seq<Token>, zones: set<int>): (r: Option<int>)
    ensures r.None? <==> Seeds(doc, zones) == {}
    ensures r.Some? ==> exists i :: IsLastSeedAt(doc, zones, i) && doc[i].position == r.value
    decreases |doc|
  {
    if |doc| == 0 then None
    else if IsSeed(doc[|doc| - 1], zones) then
      assert IsLastSeedAt(doc, zones, |doc| - 1);
      Some(doc[|doc| - 1].position)
    else
      var front := doc[..|doc| - 1];
      assert Seeds(doc, zones) == Seeds(front, zones);
      assert forall i :: IsLastSeedAt(front, zones, i) ==> IsLastSeedAt(doc, zones, i);
      LastSeed(front, zones)
  }

  /** The position of the last token (`last_position` of the keyword script). */
  function LastPosition(doc: seq<Token>): Option<int> {
    if |doc| == 0 then None else Some(doc[|doc| - 1].position)
  }

  /**
   * Position `p` is added when widening seed `s`: for some `i` in
   * `range(threshold + 1)`, either `p == s + i <= last` or `p == s - i > 0`.
   */
  predicate Covers(s: int, p: int, last: int, threshold: int) {
    || (s <= p <= s + threshold && p <= last)
    || (s - threshold <= p <= s && p > 0)
  }

  /** `p` lies in the window of some seed. */
  predicate InWindow(p: int, seeds: set<int>, last: int, threshold: int) {
    exists s :: s in seeds && Covers(s, p, last, threshold)
  }

  /** The tokens whose position is in some window, in document order. */
  function Kept(doc: seq<Token>, seeds: set<int>, last: int, threshold: int): (r: seq<Token>)
    ensures |r| <= |doc|
    ensures forall t :: t in r <==> t in doc && InWindow(t.position, seeds, last, threshold)
    decreases |doc|
  {
    if |doc| == 0 then []
    else
      var front := doc[..|doc| - 1];
      var t := doc[|doc| - 1];
      assert doc == front + [t];
      var rest := Kept(front, seeds, last, threshold);
      if InWindow(t.position, seeds, last, threshold) then rest + [t] else rest
  }

  /** The concatenated texts of `ts`. */
  function Join(ts: seq<Token>): string
    decreases |ts|
  {
    if |ts| == 0 then "" else Join(ts[..|ts| - 1]) + ts[|ts| - 1].text
  }

  /** `extract_text` of the topic script: forward widening clipped at the last seed. */
  function ExtractSeedClipped(doc: seq<Token>, zones: set<int>, threshold: int): (r: Option<string>)
    ensures r.None? <==> |Seeds(doc, zones)| < 2
  {
    var seeds := Seeds(doc, zones);
    if |seeds| < 2 then None
    else Some(Join(Kept(doc, seeds, LastSeed(doc, zones).value, threshold)))
  }

  /** `extract_text` of the keyword script: forward widening clipped at the last token. */
  function ExtractTokenClipped(doc: seq<Token>, zones: set<int>, threshold: int): (r: Option<string>)
    ensures r.None? <==> |Seeds(doc, zones)| < 2
  {
    var seeds := Seeds(doc, zones);
    if |seeds| < 2 then None
    else
      assert doc != [] by {
        var p :| p in seeds;
      }
      Some(Join(Kept(doc, seeds, LastPosition(doc).value, threshold)))
  }

  // ---------------------------------------------------------------------------
  // Properties of the window
  // ---------------------------------------------------------------------------

  /**
   * For a non-negative threshold, every seed token with a positive position
   * is kept (the `i == 0` step of the backward widening), whatever the clip
   * position. A negative threshold makes `range(threshold + 1)` empty.
   */
  lemma SeedsAreKept(doc: seq<Token>, zones: set<int>, last: int, threshold: int)
    requires threshold >= 0
    ensures forall i :: 0 <= i < |doc| && IsSeed(doc[i], zones) && doc[i].position > 0 ==>
      doc[i] in Kept(doc, Seeds(doc, zones), last, threshold)
  {
    var seeds := Seeds(doc, zones);
    forall i | 0 <= i < |doc| && IsSeed(doc[i], zones) && doc[i].position > 0
      ensures doc[i] in Kept(doc, seeds, last, threshold)
    {
      var p := doc[i].position;
      assert p in seeds;
      assert Covers(p, p, last, threshold);
    }
  }

  /**
   * In a document with sorted positions, the topic script keeps nothing past
   * the last seed.
   */
  lemma SeedClipBound(doc: seq<Token>, zones: set<int>, threshold: int)
    requires Sorted(doc)
    requires Seeds(doc, zones) != {}
    ensures forall t :: t in Kept(doc, Seeds(doc, zones), LastSeed(doc, zones).value, threshold) ==>
      t.position <= LastSeed(doc, zones).value
  {
    var seeds := Seeds(doc, zones);
    var last := LastSeed(doc, zones).value;
    var k :| IsLastSeedAt(doc, zones, k) && doc[k].position == last;
    forall s | s in seeds
      ensures s <= last
    {
      var i :| 0 <= i < |doc| && IsSeed(doc[i], zones) && doc[i].position == s;
      assert i <= k;
    }
    forall t | t in Kept(doc, seeds, last, threshold)
      ensures t.position <= last
    {
      var s :| s in seeds && Covers(s, t.position, last, threshold);
    }
  }

  /** A window with a later clip position covers at least as much. */
  lemma WiderClipKeepsMore(p: int, seeds: set<int>, last: int, last': int, threshold: int)
    requires last <= last'
    requires InWindow(p, seeds, last, threshold)
    ensures InWindow(p, seeds, last', threshold)
  {
    var s :| s in seeds && Covers(s, p, last, threshold);
    assert Covers(s, p, last', threshold);
  }

  /**
   * In a document with sorted positions, every token the topic script keeps is
   * also kept by the keyword script.
   */
  lemma SeedClipWithinTokenClip(doc: seq<Token>, zones: set<int>, threshold: int)
    requires Sorted(doc)
    requires Seeds(doc, zones) != {}
    ensures forall t :: t in Kept(doc, Seeds(doc, zones), LastSeed(doc, zones).value, threshold) ==>
      t in Kept(doc, Seeds(doc, zones), LastPosition(doc).value, threshold)
  {
    var seeds := Seeds(doc, zones);
    var last := LastSeed(doc, zones).value;
    var k :| IsLastSeedAt(doc, zones, k) && doc[k].position == last;
    assert last <= LastPosition(doc).value;
    forall t | t in Kept(doc, seeds, last, threshold)
      ensures t in Kept(doc, seeds, LastPosition(doc).value, threshold)
    {
      WiderClipKeepsMore(t.position, seeds, last, LastPosition(doc).value, threshold);
    }
  }

  /**
   * The worked example: seeds at 10 and 15, threshold 2. Clipped at 20 (the
   * last token of a document 1..20) the window is 8..17; clipped at the last
   * seed 15 it is 8..15.
   */
  lemma WindowExample()
    ensures forall p :: InWindow(p, {10, 15}, 20, 2) <==> 8 <= p <= 17
    ensures forall p :: InWindow(p, {10, 15}, 15, 2) <==> 8 <= p <= 15
  {
    forall p | 8 <= p <= 17
      ensures InWindow(p, {10, 15}, 20, 2)
    {
      if p <= 12 { assert Covers(10, p, 20, 2); } else { assert Covers(15, p, 20, 2); }
    }
    forall p | 8 <= p <= 15
      ensures InWindow(p, {10, 15}, 15, 2)
    {
      if p <= 12 { assert Covers(10, p, 15, 2); } else { assert Covers(15, p, 15, 2); }
    }
  }

  /**
   * A 20-token document at positions 1..20 whose only seeds are positions 10
   * and 15; the token at position p is the p-th letter, 'a' to 't'.
   */
  function ExampleDoc(): (doc: seq<Token>)
    ensures |doc| == 20
    ensures forall i :: 0 <= i < 20 ==> doc[i].position == i + 1
  {
    seq(20, i requires 0 <= i < 20 => Token(i + 1, if i == 9 || i == 14 then 60 else 10, [('a' as int + i) as char]))
  }

  /** Extending the prefix by one token appends it to the kept tokens exactly when it is in a window. */
  lemma KeptStep(doc: seq<Token>, j: int, seeds: set<int>, last: int, threshold: int)
    requires 0 <= j < |doc|
    ensures Kept(doc[..j + 1], seeds, last, threshold) ==
      if InWindow(doc[j].position, seeds, last, threshold) then Kept(doc[..j], seeds, last, threshold) + [doc[j]]
      else Kept(doc[..j], seeds, last, threshold)
  {
    assert doc[..j + 1][..j] == doc[..j];
  }

  /** When the window holds exactly the tokens at indices a..b-1, those are what is kept. */
  lemma {:induction false} KeptSlice(doc: seq<Token>, seeds: set<int>, last: int, threshold: int, a: nat, b: nat, k: nat)
    requires a <= b <= |doc| && k <= |doc|
    requires forall i :: 0 <= i < |doc| ==> (InWindow(doc[i].position, seeds, last, threshold) <==> a <= i < b)
    ensures Kept(doc[..k], seeds, last, threshold) == doc[if k < a then k else a..if k < b then k else b]
  {
    if k > 0 {
      var j := k - 1;
      KeptSlice(doc, seeds, last, threshold, a, b, j);
      var before := Kept(doc[..j], seeds, last, threshold);
      var inside := InWindow(doc[j].position, seeds, last, threshold);
      KeptStep(doc, j, seeds, last, threshold);
      if j < a {
        assert !inside && before == [];
        assert Kept(doc[..k], seeds, last, threshold) == [] == doc[if k < a then k else a..if k < b then k else b];
      } else if j < b {
        assert inside && before == doc[a..j];
        SliceSnoc(doc, a, k);
        assert Kept(doc[..k], seeds, last, threshold) == doc[a..k];
      } else {
        assert !inside && before == doc[a..b];
        assert Kept(doc[..k], seeds, last, threshold) == doc[a..b];
      }
    }
  }

  lemma SliceSnoc(s: seq<Token>, a: nat, k: nat)
    requires a < k <= |s|
    ensures s[a..k] == s[a..k - 1] + [s[k - 1]]
  {
  }

  /** Joining one-character tokens spells out their characters in order. */
  lemma {:induction false} JoinLetters(ts: seq<Token>)
    requires forall i :: 0 <= i < |ts| ==> |ts[i].text| == 1
    ensures Join(ts) == seq(|ts|, i requires 0 <= i < |ts| => ts[i].text[0])
  {
    if |ts| > 0 {
      JoinLetters(ts[..|ts| - 1]);
    }
  }

  /** The letters of positions 8..17 of the example document. */
  lemma ExampleLetters()
    ensures Join(ExampleDoc()[7..17]) == "hijklmnopq"
    ensures Join(ExampleDoc()[7..15]) == "hijklmno"
  {
    var doc := ExampleDoc();
    JoinLetters(doc[7..17]);
    JoinLetters(doc[7..15]);
    assert Join(doc[7..17]) == "hijklmnopq" by {
      var w := Join(doc[7..17]);
      assert |w| == 10;
      assert w[0] == 'h' && w[1] == 'i' && w[2] == 'j' && w[3] == 'k' && w[4] == 'l';
      assert w[5] == 'm' && w[6] == 'n' && w[7] == 'o' && w[8] == 'p' && w[9] == 'q';
    }
    assert Join(doc[7..15]) == "hijklmno" by {
      var w := Join(doc[7..15]);
      assert |w| == 8;
      assert w[0] == 'h' && w[1] == 'i' && w[2] == 'j' && w[3] == 'k' && w[4] == 'l';
      assert w[5] == 'm' && w[6] == 'n' && w[7] == 'o';
    }
  }

  /** The example's seeds and clipping points, as the extraction functions see them. */
  lemma ExampleSeeds()
    ensures Seeds(ExampleDoc(), DefaultZones) == {10, 15} && |Seeds(ExampleDoc(), DefaultZones)| == 2
    ensures LastSeed(ExampleDoc(), DefaultZones) == Some(15) && LastPosition(ExampleDoc()) == Some(20)
  {
    var seeds := Seeds(ExampleDoc(), DefaultZones);
    assert seeds == {10, 15} && LastSeed(ExampleDoc(), DefaultZones) == Some(15)
        && LastPosition(ExampleDoc()) == Some(20) by {
      ExampleDocExtraction();
    }
    assert |seeds| == 2 by {
      assert seeds == {10} + {15};
    }
  }

  /** The keyword script's text for the example document: the letters of positions 8..17. */
  lemma ExampleTokenClippedText()
    ensures ExtractTokenClipped(ExampleDoc(), DefaultZones, 2) == Some("hijklmnopq")
  {
    var doc := ExampleDoc();
    ExampleSeeds();
    assert Join(Kept(doc, {10, 15}, 20, 2)) == "hijklmnopq" by {
      ExampleKept();
      ExampleLetters();
    }
  }

  /** The topic script's text for the example document: the letters of positions 8..15. */
  lemma ExampleSeedClippedText()
    ensures ExtractSeedClipped(ExampleDoc(), DefaultZones, 2) == Some("hijklmno")
  {
    var doc := ExampleDoc();
    ExampleSeeds();
    assert Join(Kept(doc, {10, 15}, 15, 2)) == "hijklmno" by {
      ExampleKept();
      ExampleLetters();
    }
  }

  /** The tokens kept from the example document, as slices of it. */
  lemma ExampleKept()
    ensures Kept(ExampleDoc(), {10, 15}, 20, 2) == ExampleDoc()[7..17]
    ensures Kept(ExampleDoc(), {10, 15}, 15, 2) == ExampleDoc()[7..15]
  {
    var doc := ExampleDoc();
    WindowExample();
    assert doc[..20] == doc;
    assert forall i :: 0 <= i < |doc| ==> (InWindow(doc[i].position, {10, 15}, 20, 2) <==> 7 <= i < 17);
    assert forall i :: 0 <= i < |doc| ==> (InWindow(doc[i].position, {10, 15}, 15, 2) <==> 7 <= i < 15);
    KeptSlice(doc, {10, 15}, 20, 2, 7, 17, 20);
    KeptSlice(doc, {10, 15}, 15, 2, 7, 15, 20);
  }

  /**
   * The example at the scripts' default threshold of 10: every position 1..20
   * lies in a window when clipped at 20, and exactly 1..15 when clipped at 15.
   */
  lemma DefaultWindowExample()
    ensures forall p :: InWindow(p, {10, 15}, 20, DefaultThreshold) <==> 1 <= p <= 20
    ensures forall p :: InWindow(p, {10, 15}, 15, DefaultThreshold) <==> 1 <= p <= 15
  {
    forall p | 1 <= p <= 20
      ensures InWindow(p, {10, 15}, 20, DefaultThreshold)
    {
      assert Covers(10, p, 20, DefaultThreshold);
    }
    forall p | 1 <= p <= 15
      ensures InWindow(p, {10, 15}, 15, DefaultThreshold)
    {
      assert Covers(10, p, 15, DefaultThreshold);
    }
  }

  /** The tokens kept from the example document at the default threshold. */
  lemma DefaultExampleKept()
    ensures Kept(ExampleDoc(), {10, 15}, 20, DefaultThreshold) == ExampleDoc()
    ensures Kept(ExampleDoc(), {10, 15}, 15, DefaultThreshold) == ExampleDoc()[..15]
  {
    var doc := ExampleDoc();
    DefaultWindowExample();
    assert doc[..20] == doc && doc[0..20] == doc && doc[0..15] == doc[..15];
    assert forall i :: 0 <= i < |doc| ==> (InWindow(doc[i].position, {10, 15}, 20, DefaultThreshold) <==> 0 <= i < 20);
    assert forall i :: 0 <= i < |doc| ==> (InWindow(doc[i].position, {10, 15}, 15, DefaultThreshold) <==> 0 <= i < 15);
    KeptSlice(doc, {10, 15}, 20, DefaultThreshold, 0, 20, 20);
    KeptSlice(doc, {10, 15}, 15, DefaultThreshold, 0, 15, 20);
  }

  /** Joining is compatible with concatenation. */
  lemma {:induction false} JoinAppend(xs: seq<Token>, ys: seq<Token>)
    ensures Join(xs + ys) == Join(xs) + Join(ys)
    decreases |ys|
  {
    if |ys| == 0 {
      assert xs + ys == xs;
    } else {
      var front := ys[..|ys| - 1];
      var t := ys[|ys| - 1];
      JoinAppend(xs, front);
      assert (xs + ys)[..|xs + ys| - 1] == xs + front;
      assert (xs + ys)[|xs + ys| - 1] == t;
      assert Join(xs + ys) == Join(xs) + Join(front) + t.text;
    }
  }

  /** Five consecutive tokens of the example document spell five consecutive letters. */
  lemma ExampleChunk(a: nat)
    requires a <= 15
    ensures Join(ExampleDoc()[a..a + 5]) == seq(5, i requires 0 <= i < 5 => ('a' as int + a + i) as char)
  {
    JoinLetters(ExampleDoc()[a..a + 5]);
  }

  /** The first fifteen letters of the example document. */
  lemma DefaultExamplePrefixLetters()
    ensures Join(ExampleDoc()[..15]) == "abcdefghijklmno"
  {
    var doc := ExampleDoc();
    assert Join(doc[0..5]) == "abcde" by { ExampleChunk(0); }
    assert Join(doc[5..10]) == "fghij" by { ExampleChunk(5); }
    assert Join(doc[10..15]) == "klmno" by { ExampleChunk(10); }
    assert doc[..15] == doc[0..5] + doc[5..10] + doc[10..15];
    JoinAppend(doc[0..5], doc[5..10]);
    JoinAppend(doc[0..5] + doc[5..10], doc[10..15]);
  }

  /** All twenty letters of the example document. */
  lemma DefaultExampleLetters()
    ensures Join(ExampleDoc()) == "abcdefghijklmnopqrst"
  {
    var doc := ExampleDoc();
    DefaultExamplePrefixLetters();
    assert Join(doc[15..20]) == "pqrst" by { ExampleChunk(15); }
    assert doc == doc[..15] + doc[15..20];
    JoinAppend(doc[..15], doc[15..20]);
  }

  /**
   * The example with the scripts' default zones and threshold: the keyword
   * script returns the whole document's text, the topic script stops at the
   * last seed, position 15.
   */
  lemma ExampleAtDefaultThreshold()
    ensures ExtractTokenClipped(ExampleDoc(), DefaultZones, DefaultThreshold) == Some("abcdefghijklmnopqrst")
    ensures ExtractSeedClipped(ExampleDoc(), DefaultZones, DefaultThreshold) == Some("abcdefghijklmno")
  {
    var doc := ExampleDoc();
    ExampleSeeds();
    assert Join(Kept(doc, {10, 15}, 20, DefaultThreshold)) == "abcdefghijklmnopqrst"
        && Join(Kept(doc, {10, 15}, 15, DefaultThreshold)) == "abcdefghijklmno" by {
      DefaultExampleKept();
      DefaultExampleLetters();
      DefaultExamplePrefixLetters();
    }
  }

  /**
   * The worked example on a whole document, the default zones, threshold 2: the
   * keyword script keeps exactly positions 8..17, the topic script exactly 8..15.
   */
  lemma ExampleDocExtraction()
    ensures Seeds(ExampleDoc(), DefaultZones) == {10, 15}
    ensures LastSeed(ExampleDoc(), DefaultZones) == Some(15)
    ensures LastPosition(ExampleDoc()) == Some(20)
    ensures forall i :: 0 <= i < 20 ==>
      (ExampleDoc()[i] in Kept(ExampleDoc(), {10, 15}, 20, 2) <==> 8 <= i + 1 <= 17)
    ensures forall i :: 0 <= i < 20 ==>
      (ExampleDoc()[i] in Kept(ExampleDoc(), {10, 15}, 15, 2) <==> 8 <= i + 1 <= 15)
  {
    var doc := ExampleDoc();
    var zones := DefaultZones;
    assert forall i :: 0 <= i < 20 ==> (IsSeed(doc[i], zones) <==> i == 9 || i == 14);
    assert doc[9].position == 10 && doc[14].position == 15;
    assert Seeds(doc, zones) == {10, 15};
    var last := LastSeed(doc, zones).value;
    var k :| IsLastSeedAt(doc, zones, k) && doc[k].position == last;
    assert k == 14;
    WindowExample();
    forall i | 0 <= i < 20
      ensures doc[i] in Kept(doc, {10, 15}, 20, 2) <==> 8 <= i + 1 <= 17
      ensures doc[i] in Kept(doc, {10, 15}, 15, 2) <==> 8 <= i + 1 <= 15
    {
      assert doc[i] in doc;
    }
  }
}
