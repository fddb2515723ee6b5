/** Model of the suffix-stripping stemmer in practical-go-foundations/nlp/stemmer/stem.go.
    Go strings are byte strings and `len`/slicing count bytes, so words are byte sequences. */
module Stemmer {

  newtype byte = x: int | 0 <= x < 256

  /** The bytes of an ASCII string literal. */
  function Ascii(s: string): (r: seq<byte>)
    requires forall i :: 0 <= i < |s| ==> s[i] as int < 128
  {
    seq(|s|, i requires 0 <= i < |s| => s[i] as int as byte)
  }

  /** The suffixes Stem tries, in the order it tries them. */
  const Suffixes: seq<seq<byte>> := [Ascii("ing"), Ascii("ed"), Ascii("ly"), Ascii("es"), Ascii("s")]

  /** Stem removes `suffix` from `word` only if the word ends with it and is strictly longer. */
  predicate Strips(word: seq<byte>, suffix: seq<byte>) {
    |word| > |suffix| && word[|word| - |suffix|..] == suffix
  }

  /** Suffixes[k] is the first entry of the list that Stem may remove from `word`. */
  predicate FirstStrip(word: seq<byte>, k: int) {
    0 <= k < |Suffixes| && Strips(word, Suffixes[k])
    && forall j :: 0 <= j < k ==> !Strips(word, Suffixes[j])
  }

  /** The loop over the suffix list: remove the first suffix of `suffixes` that strips, if any. */
  function StripFirst(word: seq<byte>, suffixes: seq<seq<byte>>): (r: seq<byte>)
    requires forall j :: 0 <= j < |suffixes| ==> |suffixes[j]| > 0
    ensures r == word <==> forall j :: 0 <= j < |suffixes| ==> !Strips(word, suffixes[j])
    ensures r != word ==>
      exists k :: 0 <= k < |suffixes| && Strips(word, suffixes[k])
        && (forall j :: 0 <= j < k ==> !Strips(word, suffixes[j]))
        && r == word[..|word| - |suffixes[k]|]
  {
    if suffixes == [] then word
    else if Strips(word, suffixes[0]) then word[..|word| - |suffixes[0]|]
    else
      var r := StripFirst(word, suffixes[1..]);
      assert forall j :: 1 <= j < |suffixes| ==> suffixes[j] == suffixes[1..][j - 1];
      r
  }

  /** Stem: words shorter than 3 bytes are returned as they are; otherwise the first suffix of
      "ing", "ed", "ly", "es", "s" that the word ends with (and is longer than) is removed. */
  function Stem(word: seq<byte>): (r: seq<byte>)
    ensures |word| < 3 ==> r == word
    ensures |r| <= |word| && r == word[..|r|]
    ensures |word| - 3 <= |r|
    ensures |word| >= 3 ==> |r| > 0
    ensures r == word <==> |word| < 3 || forall k :: 0 <= k < |Suffixes| ==> !Strips(word, Suffixes[k])
    ensures r != word ==> exists k :: FirstStrip(word, k) && r == word[..|word| - |Suffixes[k]|]
  {
    if |word| < 3 then word
    else
      var r := StripFirst(word, Suffixes);
      assert forall k :: 0 <= k < |Suffixes| ==> 1 <= |Suffixes[k]| <= 3;
      r
  }

  /** The suffix list spelled out in bytes. */
  lemma SuffixBytes()
    ensures Suffixes == [[105, 110, 103], [101, 100], [108, 121], [101, 115], [115]]
  {
    assert Suffixes[0] == [105, 110, 103];
    assert Suffixes[1] == [101, 100];
    assert Suffixes[2] == [108, 121];
    assert Suffixes[3] == [101, 115];
    assert Suffixes[4] == [115];
  }

  /** Stem removes exactly the first suffix of the list that the word ends with and is longer than. */
  lemma StemRemovesFirstStrip(word: seq<byte>, k: int)
    requires |word| >= 3 && FirstStrip(word, k)
    ensures Stem(word) == word[..|word| - |Suffixes[k]|]
  {
    var r := Stem(word);
    assert r != word;
    var k' :| FirstStrip(word, k') && r == word[..|word| - |Suffixes[k']|];
    assert k' == k;
  }

  /** "likes" becomes "lik": "es" is tried before "s". */
  lemma StemLikes()
    ensures Stem(Ascii("likes")) == Ascii("lik")
  {
    var w: seq<byte> := [108, 105, 107, 101, 115];
    assert Ascii("likes") == w;
    assert Ascii("lik") == w[..3];
    SuffixBytes();
    assert !Strips(w, Suffixes[0]);
    assert !Strips(w, Suffixes[1]);
    assert !Strips(w, Suffixes[2]);
    assert Strips(w, Suffixes[3]);
    StemRemovesFirstStrip(w, 3);
  }

  /** A word that is exactly a suffix is not stripped: "ing" stays "ing". */
  lemma StemKeepsBareSuffix()
    ensures Stem(Ascii("ing")) == Ascii("ing")
  {
    var w := Ascii("ing");
    assert forall k :: 1 <= k < |Suffixes| ==> w[3 - |Suffixes[k]|] != Suffixes[k][0];
  }

  /** "running" becomes "runn"; only the first matching suffix is removed. */
  lemma StemRunning()
    ensures Stem(Ascii("running")) == Ascii("runn")
  {
    var w := Ascii("running");
    assert Strips(w, Suffixes[0]) by { assert w[4..] == Suffixes[0]; }
    StemRemovesFirstStrip(w, 0);
    assert w[..4] == Ascii("runn");
  }
}
