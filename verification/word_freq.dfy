/** Model of practical-go-foundations/freq/freq.go: counting the lowercased \w+ matches of every
    line of a text in a map, and topN, the words with the highest counts. The lines are given as
    a sequence (the file and its bufio.Scanner are not modelled). */
module WordFreq {
  import opened Nlp
  import opened Sets

  /** The tokens of each line in turn. */
  function AllTokens(lines: seq<string>): (ts: seq<string>)
    ensures forall k :: 0 <= k < |ts| ==> IsToken(ts[k])
  {
    if lines == [] then [] else AllTokens(lines[..|lines| - 1]) + Tokens(lines[|lines| - 1])
  }

  /** The lines joined back into one text, separated by newlines. */
  function JoinLines(lines: seq<string>): string {
    if lines == [] then ""
    else if |lines| == 1 then lines[0]
    else JoinLines(lines[..|lines| - 1]) + "\n" + lines[|lines| - 1]
  }

  /** Counting line by line is counting the tokens of the whole text: a newline is not a word
      character, so no match spans two lines. */
  lemma {:induction false} AllTokensOfText(lines: seq<string>)
    ensures AllTokens(lines) == Tokens(JoinLines(lines))
    decreases |lines|
  {
    if |lines| == 1 {
      assert AllTokens(lines) == AllTokens([]) + Tokens(lines[0]);
    } else if |lines| > 1 {
      var init, last := lines[..|lines| - 1], lines[|lines| - 1];
      AllTokensOfText(init);
      TokensSplit(JoinLines(init), '\n', last);
    }
  }

  /** freq holds the count of every word of ts, and no other key. */
  ghost predicate Tallies(freq: map<string, int>, ts: seq<string>) {
    forall w :: (w in freq <==> w in multiset(ts)) && (w in freq ==> freq[w] == multiset(ts)[w])
  }

  /** One more occurrence of key. */
  lemma TalliesAdd(freq: map<string, int>, ts: seq<string>, key: string)
    requires Tallies(freq, ts)
    ensures Tallies(freq[key := (if key in freq then freq[key] else 0) + 1], ts + [key])
  {
    assert multiset(ts + [key]) == multiset(ts) + multiset{key};
  }

  /** The tally of one more token of a line. */
  lemma TalliesStep(freq: map<string, int>, before: seq<string>, toks: seq<string>, j: nat)
    requires j < |toks| && Tallies(freq, before + toks[..j])
    ensures Tallies(freq[toks[j] := (if toks[j] in freq then freq[toks[j]] else 0) + 1], before + toks[..j + 1])
  {
    assert before + toks[..j + 1] == before + toks[..j] + [toks[j]];
    TalliesAdd(freq, before + toks[..j], toks[j]);
  }

  /** The inner loop of main over the matches of one line. */
  method CountLine(freq0: map<string, int>, line: string, ghost before: seq<string>)
    returns (freq: map<string, int>)
    requires Tallies(freq0, before)
    ensures Tallies(freq, before + Tokens(line))
  {
    freq := freq0;
    var words := Words(line);
    ghost var toks := Tokens(line);
    assert |toks| == |words| && forall k :: 0 <= k < |words| ==> toks[k] == Lower(words[k]);
    for j := 0 to |words|
      invariant Tallies(freq, before + toks[..j])
    {
      var key := Lower(words[j]);
      TalliesStep(freq, before, toks, j);
      freq := freq[key := (if key in freq then freq[key] else 0) + 1];
    }
    assert toks[..|words|] == toks;
  }

  /** The counting loop of main: freq[strings.ToLower(word)]++ for every match of every line. */
  method CountWords(lines: seq<string>) returns (freq: map<string, int>)
    ensures forall w :: w in freq <==> w in AllTokens(lines)
    ensures forall w :: w in freq ==> freq[w] == multiset(AllTokens(lines))[w]
    ensures forall w :: w in freq ==> IsToken(w) && freq[w] >= 1
  {
    freq := map[];
    for i := 0 to |lines|
      invariant Tallies(freq, AllTokens(lines[..i]))
    {
      freq := CountLine(freq, lines[i], AllTokens(lines[..i]));
      assert lines[..i + 1][..i] == lines[..i];
    }
    assert lines[..|lines|] == lines;
    assert Tallies(freq, AllTokens(lines));
  }

  // ---------------------------------------------------------------------------------------
  // topN

  function Min(a: int, b: int): int {
    if a < b then a else b
  }

  predicate Distinct(ws: seq<string>) {
    forall i, j :: 0 <= i < j < |ws| ==> ws[i] != ws[j]
  }

  /** The counts along ws, all keys of freq, never increase. */
  predicate SortedDesc(ws: seq<string>, freq: map<string, int>)
    requires AllIn(ws, freq)
  {
    forall i, j :: 0 <= i < j < |ws| ==> freq[ws[i]] >= freq[ws[j]]
  }

  /** What topN promises: min(n, len(freq)) distinct keys in non-increasing order of count, and
      no key left out has a higher count than a key returned. Among equal counts any order is
      accepted. */
  predicate IsTopN(freq: map<string, int>, n: nat, top: seq<string>) {
    |top| == Min(n, |freq|) &&
    AllIn(top, freq) &&
    Distinct(top) &&
    SortedDesc(top, freq) &&
    (forall w, k :: w in freq && w !in top && 0 <= k < |top| ==> freq[w] <= freq[top[k]])
  }

  /** Every word of ws is a key of freq. */
  predicate AllIn(ws: seq<string>, freq: map<string, int>) {
    forall k :: 0 <= k < |ws| ==> ws[k] in freq
  }

  /** Sorted by count below hi, skipping position j. */
  ghost predicate SortedExcept(s: seq<string>, freq: map<string, int>, hi: int, j: int)
    requires AllIn(s, freq)
  {
    forall p, q :: 0 <= p < q < hi && q < |s| && p != j && q != j ==> freq[s[p]] >= freq[s[q]]
  }

  /** The entry at j has a larger count than every entry after it up to i. */
  ghost predicate LargerThanRest(s: seq<string>, freq: map<string, int>, j: nat, i: nat)
    requires j <= i < |s| && AllIn(s, freq)
  {
    forall q :: j < q <= i ==> freq[s[j]] > freq[s[q]]
  }

  /** sort.Slice(words, freq[words[i]] > freq[words[j]]), done as an insertion sort by adjacent
      swaps: any order of equal counts is allowed, as sort.Slice is not stable. */
  method SortByCountDesc(a: array<string>, freq: map<string, int>)
    modifies a
    requires AllIn(a[..], freq)
    ensures AllIn(a[..], freq)
    ensures SortedDesc(a[..], freq)
    ensures multiset(a[..]) == multiset(old(a[..]))
  {
    for i := 0 to a.Length
      invariant AllIn(a[..], freq)
      invariant SortedExcept(a[..], freq, i, -1)
      invariant multiset(a[..]) == multiset(old(a[..]))
    {
      Insert(a, freq, i);
    }
  }

  /** Moves a[i] left past the entries with a smaller count. */
  method Insert(a: array<string>, freq: map<string, int>, i: nat)
    modifies a
    requires i < a.Length
    requires AllIn(a[..], freq)
    requires SortedExcept(a[..], freq, i, -1)
    ensures AllIn(a[..], freq)
    ensures SortedExcept(a[..], freq, i + 1, -1)
    ensures multiset(a[..]) == multiset(old(a[..]))
    ensures a[i + 1..] == old(a[i + 1..])
  {
    var j: nat := i;
    ghost var rest := a[i + 1..];
    InsertStart(a[..], freq, i);
    while j > 0 && freq[a[j - 1]] < freq[a[j]]
      invariant InsertInv(a[..], freq, i, j, rest)
      invariant multiset(a[..]) == multiset(old(a[..]))
    {
      SwapDown(a, freq, i, j, rest);
      j := j - 1;
    }
    InsertDone(a[..], freq, i, j, rest);
  }

  /** The state of Insert's loop: the entry being moved is at j, the other entries up to i
      are sorted, and the entries after i are still rest. */
  ghost predicate InsertInv(s: seq<string>, freq: map<string, int>, i: nat, j: nat, rest: seq<string>) {
    j <= i < |s| && AllIn(s, freq) && SortedExcept(s, freq, i + 1, j) && LargerThanRest(s, freq, j, i) &&
    s[i + 1..] == rest
  }

  /** One step of Insert's loop: the moved entry passes its smaller left neighbour. */
  method SwapDown(a: array<string>, freq: map<string, int>, i: nat, j: nat, ghost rest: seq<string>)
    modifies a
    requires 0 < j && InsertInv(a[..], freq, i, j, rest) && freq[a[j - 1]] < freq[a[j]]
    ensures InsertInv(a[..], freq, i, j - 1, rest)
    ensures multiset(a[..]) == multiset(old(a[..]))
  {
    ghost var s := a[..];
    ghost var t := s[j - 1 := s[j]][j := s[j - 1]];
    SwapStep(s, t, freq, i, j, rest);
    Swap(a, j - 1, j);
    assert a[..] == t;
  }

  /** Exchanges two entries of a. */
  method Swap(a: array<string>, p: nat, q: nat)
    modifies a
    requires p < q < a.Length
    ensures a[..] == old(a[..])[p := old(a[q])][q := old(a[p])]
  {
    a[p], a[q] := a[q], a[p];
  }

  /** Sorted below i is sorted below i + 1 when position i is skipped. */
  lemma InsertStart(s: seq<string>, freq: map<string, int>, i: nat)
    requires i < |s| && AllIn(s, freq)
    requires SortedExcept(s, freq, i, -1)
    ensures InsertInv(s, freq, i, i, s[i + 1..])
  {
  }

  /** Once the moved entry is no larger than its left neighbour, all of s[..i+1] is sorted. */
  lemma InsertDone(s: seq<string>, freq: map<string, int>, i: nat, j: nat, rest: seq<string>)
    requires InsertInv(s, freq, i, j, rest)
    requires j > 0 ==> freq[s[j - 1]] >= freq[s[j]]
    ensures AllIn(s, freq) && SortedExcept(s, freq, i + 1, -1) && s[i + 1..] == rest
  {
  }

  /** Swapping positions j-1 and j keeps the rest sorted, now skipping j-1. */
  lemma SwapStep(s: seq<string>, t: seq<string>, freq: map<string, int>, i: nat, j: nat, rest: seq<string>)
    requires 0 < j && InsertInv(s, freq, i, j, rest) && t == s[j - 1 := s[j]][j := s[j - 1]]
    requires freq[s[j - 1]] < freq[s[j]]
    ensures InsertInv(t, freq, i, j - 1, rest)
    ensures multiset(t) == multiset(s)
  {
    assert t[i + 1..] == s[i + 1..];
  }

  /** slices.Collect(maps.Keys(freq)): the keys, in the map's random iteration order. */
  method CollectKeys(freq: map<string, int>) returns (words: array<string>)
    ensures fresh(words)
    ensures words.Length == |freq|
    ensures AllIn(words[..], freq)
    ensures forall w :: w in freq ==> w in words[..]
    ensures Distinct(words[..])
  {
    words := new string[|freq|];
    var rest := freq.Keys;
    var i := 0;
    while rest != {}
      invariant 0 <= i <= words.Length && i + |rest| == |freq|
      invariant rest <= freq.Keys
      invariant forall k :: 0 <= k < i ==> words[k] in freq && words[k] !in rest
      invariant forall w :: w in freq ==> w in rest || w in words[..i]
      invariant Distinct(words[..i])
      decreases |rest|
    {
      var w :| w in rest;
      ghost var prev := words[..i];
      words[i] := w;
      assert words[..i + 1] == prev + [w];
      rest := rest - {w};
      i := i + 1;
    }
    assert words[..] == words[..i];
  }

  /** topN(freq, n); a negative n makes words[:n] panic, so n >= 0 is required. */
  method TopN(freq: map<string, int>, n: int) returns (top: seq<string>)
    requires n >= 0
    ensures IsTopN(freq, n, top)
  {
    var words := CollectKeys(freq);
    ghost var collected := words[..];
    SortByCountDesc(words, freq);
    DistinctPermutation(collected, words[..]);
    var m := Min(n, words.Length);
    top := words[..m];
    PrefixIsTopN(freq, n, collected, words[..], m);
  }

  /** The first min(n, len) entries of the sorted keys are a top-n result. */
  lemma PrefixIsTopN(freq: map<string, int>, n: nat, keys: seq<string>, sorted: seq<string>, m: nat)
    requires forall w :: w in freq ==> w in keys
    requires multiset(keys) == multiset(sorted)
    requires |sorted| == |freq| && m == Min(n, |freq|)
    requires AllIn(sorted, freq)
    requires SortedDesc(sorted, freq) && Distinct(sorted)
    ensures IsTopN(freq, n, sorted[..m])
  {
    var top := sorted[..m];
    forall w, k | w in freq && w !in top && 0 <= k < |top|
      ensures freq[w] <= freq[top[k]]
    {
      assert w in multiset(keys);
      var p :| 0 <= p < |sorted| && sorted[p] == w;
      assert p >= m;
    }
  }

  // ---------------------------------------------------------------------------------------
  // What every topN result has in common

  lemma {:induction false} DistinctMultiset(s: seq<string>)
    requires Distinct(s)
    ensures forall x :: multiset(s)[x] <= 1
  {
    if s != [] {
      var init := s[..|s| - 1];
      DistinctMultiset(init);
      assert s == init + [s[|s| - 1]];
      assert s[|s| - 1] !in init;
    }
  }

  /** A permutation of distinct words is distinct. */
  lemma DistinctPermutation(a: seq<string>, b: seq<string>)
    requires Distinct(a) && multiset(a) == multiset(b)
    ensures Distinct(b)
  {
    DistinctMultiset(a);
    forall i, j | 0 <= i < j < |b|
      ensures b[i] != b[j]
    {
      Repeated(b, i, j);
    }
  }

  /** A word at two positions occurs at least twice. */
  lemma Repeated(b: seq<string>, i: nat, j: nat)
    requires i < j < |b|
    ensures b[i] == b[j] ==> multiset(b)[b[i]] >= 2
  {
    assert b == b[..i] + [b[i]] + b[i + 1..j] + [b[j]] + b[j + 1..];
  }

  function Elements(s: seq<string>): set<string> {
    set x | x in s
  }

  lemma {:induction false} ElementsCard(s: seq<string>)
    ensures |Elements(s)| <= |s|
    ensures Distinct(s) ==> |Elements(s)| == |s|
  {
    if s != [] {
      var init := s[..|s| - 1];
      ElementsCard(init);
      assert Elements(s) == Elements(init) + {s[|s| - 1]};
    }
  }

  /** Under the assumption of NoLargerAt's proof, each of the first k+1 words of a is among the
      first k words of b. */
  lemma AmongEarlier(freq: map<string, int>, n: nat, a: seq<string>, b: seq<string>, k: nat, p: nat)
    requires IsTopN(freq, n, a) && IsTopN(freq, n, b) && p <= k < |a|
    requires freq[a[k]] > freq[b[k]]
    ensures a[p] in Elements(b[..k])
  {
    var x := a[p];
    assert freq[x] > freq[b[k]];
    assert x in b;
    var q :| 0 <= q < |b| && b[q] == x;
    assert q < k;
    assert b[..k][q] == x;
  }

  /** The k-th count of a top-N result is no larger than the k-th count of another: the k+1
      words before it would otherwise all have to fit in the first k places of the other. */
  lemma NoLargerAt(freq: map<string, int>, n: nat, a: seq<string>, b: seq<string>, k: nat)
    requires IsTopN(freq, n, a) && IsTopN(freq, n, b) && k < |a|
    ensures freq[a[k]] <= freq[b[k]]
  {
    if freq[a[k]] > freq[b[k]] {
      forall x | x in Elements(a[..k + 1])
        ensures x in Elements(b[..k])
      {
        var p :| 0 <= p <= k && a[..k + 1][p] == x;
        AmongEarlier(freq, n, a, b, k, p);
      }
      SubsetCard(Elements(a[..k + 1]), Elements(b[..k]));
      ElementsCard(a[..k + 1]);
      ElementsCard(b[..k]);
      assert false;
    }
  }

  /** topN is determined up to the order of equal counts: any two results have the same counts
      at every position. */
  lemma TopNCountsAgree(freq: map<string, int>, n: nat, a: seq<string>, b: seq<string>)
    requires IsTopN(freq, n, a) && IsTopN(freq, n, b)
    ensures forall k :: 0 <= k < |a| ==> freq[a[k]] == freq[b[k]]
  {
    forall k | 0 <= k < |a|
      ensures freq[a[k]] == freq[b[k]]
    {
      NoLargerAt(freq, n, a, b, k);
      NoLargerAt(freq, n, b, a, k);
    }
  }

  /** Conversely, swapping two neighbours of equal count gives another accepted result. */
  lemma TopNTiesSwap(freq: map<string, int>, n: nat, top: seq<string>, k: nat)
    requires IsTopN(freq, n, top) && k + 1 < |top| && freq[top[k]] == freq[top[k + 1]]
    ensures IsTopN(freq, n, top[k := top[k + 1]][k + 1 := top[k]])
  {
    var s := top[k := top[k + 1]][k + 1 := top[k]];
    SwapPositions(freq, top, s, k);
    SwapOrder(freq, top, s, k);
    SwapOmitted(freq, top, s, k);
  }

  lemma SwapPositions(freq: map<string, int>, top: seq<string>, s: seq<string>, k: nat)
    requires k + 1 < |top| && s == top[k := top[k + 1]][k + 1 := top[k]]
    requires forall p :: 0 <= p < |top| ==> top[p] in freq
    requires freq[top[k]] == freq[top[k + 1]]
    ensures forall p :: 0 <= p < |s| ==> s[p] == top[Transposed(k, p)] && top[p] == s[Transposed(k, p)]
    ensures forall p :: 0 <= p < |s| ==> s[p] in freq && freq[s[p]] == freq[top[p]]
  {
  }

  lemma SwapOrder(freq: map<string, int>, top: seq<string>, s: seq<string>, k: nat)
    requires k + 1 < |top| && |s| == |top|
    requires forall p :: 0 <= p < |top| ==> top[p] in freq
    requires Distinct(top) && SortedDesc(top, freq)
    requires forall p :: 0 <= p < |s| ==> s[p] == top[Transposed(k, p)]
    requires forall p :: 0 <= p < |s| ==> s[p] in freq && freq[s[p]] == freq[top[p]]
    ensures Distinct(s) && SortedDesc(s, freq)
  {
    forall p, q | 0 <= p < q < |s|
      ensures s[p] != s[q] && freq[s[p]] >= freq[s[q]]
    {
      assert Transposed(k, p) != Transposed(k, q);
    }
  }

  lemma SwapOmitted(freq: map<string, int>, top: seq<string>, s: seq<string>, k: nat)
    requires k + 1 < |top| && |s| == |top|
    requires forall p :: 0 <= p < |top| ==> top[p] in freq
    requires forall w, q :: w in freq && w !in top && 0 <= q < |top| ==> freq[w] <= freq[top[q]]
    requires forall p :: 0 <= p < |s| ==> top[p] == s[Transposed(k, p)]
    requires forall p :: 0 <= p < |s| ==> s[p] in freq && freq[s[p]] == freq[top[p]]
    ensures forall w, q :: w in freq && w !in s && 0 <= q < |s| ==> freq[w] <= freq[s[q]]
  {
    forall w, q | w in freq && w !in s && 0 <= q < |s|
      ensures freq[w] <= freq[s[q]]
    {
      assert w !in top;
    }
  }

  /** The position that p comes from when k and k+1 are exchanged. */
  function Transposed(k: nat, p: nat): nat {
    if p == k then k + 1 else if p == k + 1 then k else p
  }
}
