/**
 * The single-use term list of the keyword script. A text qualifies when some
 * term `t` of the list occurs in it as `' ' + t + ' '`; the first such term in
 * list order is taken and removed from the list with `list.remove`.
 */
module Keywords {
  import opened Wrappers

  /** `needle` occurs in `text` starting at index `i`. */
  ghost predicate OccursAt(text: string, needle: string, i: int) {
    0 <= i && i + |needle| <= |text| && text[i..i + |needle|] == needle
  }

  /** Python's `needle in text` on strings: `needle` is a contiguous substring of `text`. */
  function Contains(text: string, needle: string): (b: bool)
    ensures b <==> exists i :: OccursAt(text, needle, i)
    decreases |text|
  {
    if needle <= text then
      assert OccursAt(text, needle, 0);
      true
    else if |text| == 0 then false
    else
      var b := Contains(text[1..], needle);
      assert forall i :: OccursAt(text[1..], needle, i) ==> OccursAt(text, needle, i + 1) by {
        forall i | OccursAt(text[1..], needle, i)
          ensures OccursAt(text, needle, i + 1)
        {
          assert text[1..][i..i + |needle|] == text[i + 1..i + 1 + |needle|];
        }
      }
      assert forall i :: OccursAt(text, needle, i) ==> i > 0 && OccursAt(text[1..], needle, i - 1) by {
        forall i | OccursAt(text, needle, i)
          ensures i > 0 && OccursAt(text[1..], needle, i - 1)
        {
          assert text[1..][i - 1..i - 1 + |needle|] == text[i..i + |needle|];
        }
      }
      b
  }

  /** The term surrounded by single spaces, as the script searches for it. */
  function Padded(term: string): string {
    " " + term + " "
  }

  /** `t` matches `text` as a standalone token. */
  predicate Matches(t: string, text: string) {
    Contains(text, Padded(t))
  }

  /** Index of the first term of `terms` that matches `text`. */
  function FirstMatch(terms: seq<string>, text: string): (r: Option<nat>)
    ensures r.Some? ==> r.value < |terms| && Matches(terms[r.value], text)
    ensures r.Some? ==> forall k :: 0 <= k < r.value ==> !Matches(terms[k], text)
    ensures r.None? <==> forall k :: 0 <= k < |terms| ==> !Matches(terms[k], text)
    decreases |terms|
  {
    if |terms| == 0 then None
    else if Matches(terms[0], text) then Some(0)
    else
      match FirstMatch(terms[1..], text)
      case None => None
      case Some(k) => Some(k + 1)
  }

  /** `j` is the first matching index exactly when it matches and no earlier term does. */
  lemma FirstMatchIs(terms: seq<string>, text: string, j: nat)
    ensures FirstMatch(terms, text) == Some(j) <==>
      j < |terms| && Matches(terms[j], text) && forall k :: 0 <= k < j ==> !Matches(terms[k], text)
  {
  }

  /** Python's `xs.index(x)`: the index of the first occurrence of `x`. */
  function IndexOf(xs: seq<string>, x: string): (i: nat)
    requires x in xs
    ensures i < |xs| && xs[i] == x
    ensures forall k :: 0 <= k < i ==> xs[k] != x
    decreases |xs|
  {
    if xs[0] == x then 0 else 1 + IndexOf(xs[1..], x)
  }

  /** Python's `xs.remove(x)`: drop the first occurrence of `x`, keep the rest in order. */
  function RemoveFirst(xs: seq<string>, x: string): (r: seq<string>)
    requires x in xs
    ensures r == xs[..IndexOf(xs, x)] + xs[IndexOf(xs, x) + 1..]
    decreases |xs|
  {
    if xs[0] == x then
      xs[1..]
    else
      var rest := RemoveFirst(xs[1..], x);
      var i := IndexOf(xs[1..], x);
      assert xs[..i + 1] == [xs[0]] + xs[1..][..i];
      assert xs[i + 2..] == xs[1..][i + 1..];
      [xs[0]] + rest
  }

  /** Removing one occurrence shrinks the list by one and drops exactly one copy of `x`. */
  lemma RemoveFirstCounts(xs: seq<string>, x: string)
    requires x in xs
    ensures |RemoveFirst(xs, x)| == |xs| - 1
    ensures multiset(RemoveFirst(xs, x)) == multiset(xs) - multiset{x}
  {
    var i := IndexOf(xs, x);
    assert RemoveFirst(xs, x) == xs[..i] + xs[i + 1..];
    DropAt(xs, i);
  }

  /** Dropping entry `i` shortens the list by one and removes one copy of that entry. */
  lemma DropAt(xs: seq<string>, i: int)
    requires 0 <= i < |xs|
    ensures |xs[..i] + xs[i + 1..]| == |xs| - 1
    ensures multiset(xs[..i] + xs[i + 1..]) == multiset(xs) - multiset{xs[i]}
    ensures forall t :: t in xs[..i] + xs[i + 1..] ==> t in xs
  {
    assert xs == xs[..i] + [xs[i]] + xs[i + 1..];
    assert multiset(xs) == multiset(xs[..i]) + multiset{xs[i]} + multiset(xs[i + 1..]);
  }

  /**
   * `termlist.remove(term)` on the first matching term removes exactly that
   * entry: no earlier entry can equal it, since an equal earlier entry would
   * have matched first.
   */
  lemma RemoveMatchedTerm(terms: seq<string>, text: string, j: nat)
    requires FirstMatch(terms, text) == Some(j)
    ensures RemoveFirst(terms, terms[j]) == terms[..j] + terms[j + 1..]
  {
    assert Matches(terms[j], text);
    assert forall k :: 0 <= k < j ==> terms[k] != terms[j];
    var i := IndexOf(terms, terms[j]);
    assert i == j;
  }
}
