/** The per-document search of tracing-programs/main.go: an RSS item counts once when its title,
    or else its description, contains the topic. */
module TopicMatch {

  /** An RSS item as decoded from XML: only the two fields the search reads. */
  datatype Item = Item(title: string, description: string)

  /** sub occurs in s starting at index i. */
  predicate OccursAt(s: string, sub: string, i: int) {
    0 <= i && i + |sub| <= |s| && s[i..i + |sub|] == sub
  }

  /** strings.Contains: is sub a substring of s? Never when sub is the longer; always when sub
      begins or ends s. */
  function Contains(s: string, sub: string): (b: bool)
    ensures b ==> |sub| <= |s|
    ensures |sub| <= |s| && (s[..|sub|] == sub || s[|s| - |sub|..] == sub) ==> b
    decreases |s|
  {
    if |sub| > |s| then false
    else if s[..|sub|] == sub then true
    else if |sub| == |s| then (assert s[|s| - |sub|..] == s[..|sub|]; false)
    else (assert s[1..][|s| - 1 - |sub|..] == s[|s| - |sub|..]; Contains(s[1..], sub))
  }

  /** Contains agrees with the definition by position, in both directions. */
  lemma {:induction false} ContainsIff(s: string, sub: string)
    ensures Contains(s, sub) <==> exists i :: OccursAt(s, sub, i)
    decreases |s|
  {
    if |sub| > |s| {
      assert forall i :: !OccursAt(s, sub, i);
    } else if s[..|sub|] == sub {
      assert OccursAt(s, sub, 0);
    } else {
      ContainsIff(s[1..], sub);
      if exists i :: OccursAt(s, sub, i) {
        var i :| OccursAt(s, sub, i);
        assert i != 0;
        assert s[1..][i - 1..i - 1 + |sub|] == s[i..i + |sub|];
        assert OccursAt(s[1..], sub, i - 1);
      }
      if exists i :: OccursAt(s[1..], sub, i) {
        var i :| OccursAt(s[1..], sub, i);
        assert s[i + 1..i + 1 + |sub|] == s[1..][i..i + |sub|];
        assert OccursAt(s, sub, i + 1);
      }
    }
  }

  /** The empty topic is contained in every text. */
  lemma ContainsEmpty(s: string)
    ensures Contains(s, "")
  {
    assert s[..0] == "";
  }

  /** The item counts: its title contains the topic, or else its description does. */
  predicate Matches(item: Item, topic: string) {
    Contains(item.title, topic) || Contains(item.description, topic)
  }

  /** The number of matching items, each item counted at most once. */
  function Count(items: seq<Item>, topic: string): (n: nat)
    ensures n <= |items|
  {
    if items == [] then 0
    else (if Matches(items[0], topic) then 1 else 0) + Count(items[1..], topic)
  }

  /** The positions of the matching items. */
  function MatchingIndices(items: seq<Item>, topic: string): set<int> {
    set j | 0 <= j < |items| && Matches(items[j], topic)
  }

  /** Count is the number of matching positions: an item whose title and description both
      contain the topic is still counted once. */
  lemma {:induction false} CountIsMatchingIndices(items: seq<Item>, topic: string)
    ensures Count(items, topic) == |MatchingIndices(items, topic)|
    decreases |items|
  {
    if items != [] {
      var n := |items| - 1;
      var init := items[..n];
      CountIsMatchingIndices(init, topic);
      assert items == init + [items[n]];
      CountAppend(init, [items[n]], topic);
      assert MatchingIndices(items, topic) ==
        MatchingIndices(init, topic) + (if Matches(items[n], topic) then {n} else {});
      assert n !in MatchingIndices(init, topic);
    }
  }

  /** Count of a concatenation. */
  lemma {:induction false} CountAppend(a: seq<Item>, b: seq<Item>, topic: string)
    ensures Count(a + b, topic) == Count(a, topic) + Count(b, topic)
  {
    if a == [] {
      assert a + b == b;
    } else {
      assert (a + b)[1..] == a[1..] + b;
      CountAppend(a[1..], b, topic);
    }
  }

  /** The item loop: a title hit bumps the count and `continue`s past the description check. */
  method CountItems(items: seq<Item>, topic: string) returns (found: nat)
    ensures found == Count(items, topic)
    ensures found <= |items|
  {
    found := 0;
    for i := 0 to |items|
      invariant found == Count(items[..i], topic)
    {
      var item := items[i];
      assert items[..i + 1] == items[..i] + [item];
      CountAppend(items[..i], [item], topic);
      if Contains(item.title, topic) {
        found := found + 1;
        continue;
      }
      if Contains(item.description, topic) {
        found := found + 1;
      }
    }
    assert items[..|items|] == items;
  }
}
