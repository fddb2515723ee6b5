/** Model of Tokenize in practical-go-foundations/nlp/nlp.go: the matches of the regular
    expression \w+ (maximal runs of ASCII word characters, left to right), lowercased.
    Go's regexp reads runes; \w only matches ASCII, so the text is a sequence of characters. */
module Nlp {

  /** Go's regexp class \w: [0-9A-Za-z_]. */
  predicate IsWordChar(c: char) {
    ('0' <= c <= '9') || ('A' <= c <= 'Z') || ('a' <= c <= 'z') || c == '_'
  }

  /** A match of \w+: a non-empty run of word characters. */
  predicate IsWord(s: string) {
    |s| > 0 && forall i :: 0 <= i < |s| ==> IsWordChar(s[i])
  }

  /** A token: a word with no upper-case letter, i.e. made of [0-9a-z_]. */
  predicate IsToken(s: string) {
    IsWord(s) && forall i :: 0 <= i < |s| ==> !('A' <= s[i] <= 'Z')
  }

  function LowerChar(c: char): char {
    if 'A' <= c <= 'Z' then (c as int - 'A' as int + 'a' as int) as char else c
  }

  /** strings.ToLower on ASCII text, the only text it receives here: each upper-case letter
      becomes its lower-case letter, 32 code points up, and every other character is kept. */
  function Lower(s: string): (r: string)
    ensures |r| == |s|
    ensures forall i :: 0 <= i < |s| && 'A' <= s[i] <= 'Z' ==> r[i] as int == s[i] as int + 32
    ensures forall i :: 0 <= i < |s| && !('A' <= s[i] <= 'Z') ==> r[i] == s[i]
  {
    seq(|s|, i requires 0 <= i < |s| => LowerChar(s[i]))
  }

  lemma LowerWord(s: string)
    requires IsWord(s)
    ensures IsToken(Lower(s))
  {
  }

  lemma LowerToken(s: string)
    requires IsToken(s)
    ensures Lower(s) == s
  {
  }

  /** The length of the longest prefix of s made of word characters: how far the greedy
      \w+ reaches from the start of s. */
  function RunLength(s: string): (n: nat)
    ensures n <= |s|
    ensures forall i :: 0 <= i < n ==> IsWordChar(s[i])
    ensures n < |s| ==> !IsWordChar(s[n])
  {
    if s == [] || !IsWordChar(s[0]) then 0 else 1 + RunLength(s[1..])
  }

  /** FindAllString(s, -1) for \w+: every maximal run of word characters, left to right. */
  function Words(s: string): (ws: seq<string>)
    ensures forall k :: 0 <= k < |ws| ==> IsWord(ws[k])
    decreases |s|
  {
    if s == [] then []
    else if !IsWordChar(s[0]) then Words(s[1..])
    else
      var n := RunLength(s);
      [s[..n]] + Words(s[n..])
  }

  /** Text without word characters has no matches. */
  lemma {:induction false} WordsOfGap(s: string)
    requires forall i :: 0 <= i < |s| ==> !IsWordChar(s[i])
    ensures Words(s) == []
    decreases |s|
  {
    if s != [] {
      WordsOfGap(s[1..]);
    }
  }

  /** A whole word is one match. */
  lemma WordsOfWord(w: string)
    requires IsWord(w)
    ensures Words(w) == [w]
  {
    assert RunLength(w) == |w|;
    assert w[..|w|] == w;
    assert w[|w|..] == [];
    assert Words(w) == [w[..|w|]] + Words(w[|w|..]);
  }

  /** A non-word character separates: the matches of a + [c] + b are those of a followed by
      those of b. With WordsOfWord and WordsOfGap this determines Words completely. */
  lemma {:induction false} WordsSplit(a: string, c: char, b: string)
    requires !IsWordChar(c)
    ensures Words(a + [c] + b) == Words(a) + Words(b)
    decreases |a|
  {
    var s := a + [c] + b;
    if a == [] {
      assert s[1..] == b;
    } else if !IsWordChar(a[0]) {
      assert s[1..] == a[1..] + [c] + b;
      WordsSplit(a[1..], c, b);
    } else {
      var n := RunLength(s);
      var m := RunLength(a);
      assert n == m by {
        assert forall i :: 0 <= i < |a| ==> s[i] == a[i];
        assert s[|a|] == c;
      }
      assert s[..n] == a[..m];
      assert s[n..] == a[m..] + [c] + b;
      WordsSplit(a[m..], c, b);
    }
  }

  /** strings.Join(ws, " "). */
  function JoinSpace(ws: seq<string>): string {
    if |ws| == 0 then ""
    else if |ws| == 1 then ws[0]
    else ws[0] + " " + JoinSpace(ws[1..])
  }

  /** Words joined by spaces are matched back one by one. */
  lemma {:induction false} WordsOfJoin(ws: seq<string>)
    requires forall k :: 0 <= k < |ws| ==> IsWord(ws[k])
    ensures Words(JoinSpace(ws)) == ws
  {
    if |ws| == 0 {
    } else if |ws| == 1 {
      WordsOfWord(ws[0]);
    } else {
      WordsOfWord(ws[0]);
      WordsOfJoin(ws[1..]);
      WordsSplit(ws[0], ' ', JoinSpace(ws[1..]));
    }
  }

  /** The word characters of s, in order. */
  function WordChars(s: string): string {
    if s == [] then []
    else (if IsWordChar(s[0]) then [s[0]] else []) + WordChars(s[1..])
  }

  function Concat(ws: seq<string>): string {
    if ws == [] then "" else ws[0] + Concat(ws[1..])
  }

  lemma {:induction false} WordCharsAppend(a: string, b: string)
    ensures WordChars(a + b) == WordChars(a) + WordChars(b)
    decreases |a|
  {
    if a != [] {
      assert (a + b)[0] == a[0];
      assert (a + b)[1..] == a[1..] + b;
      WordCharsAppend(a[1..], b);
    } else {
      assert a + b == b;
    }
  }

  /** Nothing is lost and nothing is added: the matches, put together, are exactly the word
      characters of the text in order, so punctuation and spaces never reach a match. */
  lemma {:induction false} WordsCoverWordChars(s: string)
    ensures Concat(Words(s)) == WordChars(s)
    decreases |s|
  {
    if s == [] {
    } else if !IsWordChar(s[0]) {
      WordsCoverWordChars(s[1..]);
    } else {
      var n := RunLength(s);
      WordsCoverWordChars(s[n..]);
      assert s == s[..n] + s[n..];
      WordCharsAppend(s[..n], s[n..]);
      AllWordChars(s[..n]);
    }
  }

  lemma {:induction false} AllWordChars(w: string)
    requires forall i :: 0 <= i < |w| ==> IsWordChar(w[i])
    ensures WordChars(w) == w
    decreases |w|
  {
    if w != [] {
      AllWordChars(w[1..]);
    }
  }

  /** The tokens of a text: one lowercased token per match of \w+, in order. */
  function Tokens(text: string): (ts: seq<string>)
    ensures forall k :: 0 <= k < |ts| ==> IsToken(ts[k])
  {
    var ws := Words(text);
    assert forall k :: 0 <= k < |ws| ==> IsToken(Lower(ws[k])) by {
      forall k | 0 <= k < |ws| { LowerWord(ws[k]); }
    }
    seq(|ws|, k requires 0 <= k < |ws| => Lower(ws[k]))
  }

  /** Tokenize: the loop that lowercases each match and appends it. A text with no word
      characters (the empty text included) gives no tokens (Go returns a nil slice). */
  method Tokenize(text: string) returns (tokens: seq<string>)
    ensures tokens == Tokens(text)
  {
    var words := Words(text);
    tokens := [];
    for i := 0 to |words|
      invariant |tokens| == i
      invariant forall k :: 0 <= k < i ==> tokens[k] == Lower(words[k])
    {
      var token := Lower(words[i]);
      tokens := tokens + [token];
    }
  }

  /** A non-word character separates tokens as it separates matches. */
  lemma TokensSplit(a: string, c: char, b: string)
    requires !IsWordChar(c)
    ensures Tokens(a + [c] + b) == Tokens(a) + Tokens(b)
  {
    WordsSplit(a, c, b);
  }

  /** Text with no word character, the empty text included, has no tokens. */
  lemma TokensOfGap(s: string)
    requires forall i :: 0 <= i < |s| ==> !IsWordChar(s[i])
    ensures Tokens(s) == []
  {
    WordsOfGap(s);
  }

  /** Round trip: tokenizing the space-joined tokens gives the same tokens back. */
  lemma TokensRoundTrip(text: string)
    ensures Tokens(JoinSpace(Tokens(text))) == Tokens(text)
  {
    var ts := Tokens(text);
    WordsOfJoin(ts);
    forall k | 0 <= k < |ts| ensures Lower(ts[k]) == ts[k] {
      LowerToken(ts[k]);
    }
  }

  /** A text with no word characters. */
  predicate IsGap(g: string) {
    forall i :: 0 <= i < |g| ==> !IsWordChar(g[i])
  }

  lemma {:induction false} WordsSkipGap(g: string, rest: string)
    requires IsGap(g)
    ensures Words(g + rest) == Words(rest)
    decreases |g|
  {
    if g != [] {
      assert (g + rest)[1..] == g[1..] + rest;
      WordsSkipGap(g[1..], rest);
    } else {
      assert g + rest == rest;
    }
  }

  /** Words, each followed by a non-empty gap: ws[0] + gaps[0] + ws[1] + gaps[1] + ... */
  function Sentence(ws: seq<string>, gaps: seq<string>): string
    requires |gaps| == |ws|
  {
    if ws == [] then "" else ws[0] + gaps[0] + Sentence(ws[1..], gaps[1..])
  }

  lemma {:induction false} WordsOfSentence(ws: seq<string>, gaps: seq<string>)
    requires |gaps| == |ws|
    requires forall k :: 0 <= k < |ws| ==> IsWord(ws[k]) && |gaps[k]| > 0 && IsGap(gaps[k])
    ensures Words(Sentence(ws, gaps)) == ws
  {
    if ws != [] {
      var rest := Sentence(ws[1..], gaps[1..]);
      var g := gaps[0];
      assert ws[0] + g + rest == ws[0] + [g[0]] + (g[1..] + rest);
      WordsSplit(ws[0], g[0], g[1..] + rest);
      WordsOfWord(ws[0]);
      WordsSkipGap(g[1..], rest);
      WordsOfSentence(ws[1..], gaps[1..]);
    }
  }

  lemma WhosOnFirstSentence()
    ensures "Who's on first?" == Sentence(["Who", "s", "on", "first"], ["'", " ", " ", "?"])
  {
  }

  lemma TokensOfWhosOnFirst(text: string)
    requires text == Sentence(["Who", "s", "on", "first"], ["'", " ", " ", "?"])
    ensures Tokens(text) == ["who", "s", "on", "first"]
  {
    WordsOfSentence(["Who", "s", "on", "first"], ["'", " ", " ", "?"]);
    assert Lower("Who") == "who";
    LowerToken("s");
    LowerToken("on");
    LowerToken("first");
  }

  /** Tokenize("Who's on first?") is ["who", "s", "on", "first"]. */
  lemma TokensWhosOnFirst()
    ensures Tokens("Who's on first?") == ["who", "s", "on", "first"]
  {
    WhosOnFirstSentence();
    TokensOfWhosOnFirst("Who's on first?");
  }

  lemma HelloWorldSentence()
    ensures "Hello, World!" == Sentence(["Hello", "World"], [", ", "!"])
  {
  }

  lemma TokensOfHelloWorld(text: string)
    requires text == Sentence(["Hello", "World"], [", ", "!"])
    ensures Tokens(text) == ["hello", "world"]
  {
    WordsOfSentence(["Hello", "World"], [", ", "!"]);
    assert Lower("Hello") == "hello";
    assert Lower("World") == "world";
  }

  /** Tokenize("Hello, World!") is ["hello", "world"]. */
  lemma TokensHelloWorld()
    ensures Tokens("Hello, World!") == ["hello", "world"]
  {
    HelloWorldSentence();
    TokensOfHelloWorld("Hello, World!");
  }

  lemma GoIsAwesomeSentence()
    ensures "Go is awesome." == Sentence(["Go", "is", "awesome"], [" ", " ", "."])
  {
  }

  lemma TokensOfGoIsAwesome(text: string)
    requires text == Sentence(["Go", "is", "awesome"], [" ", " ", "."])
    ensures Tokens(text) == ["go", "is", "awesome"]
  {
    WordsOfSentence(["Go", "is", "awesome"], [" ", " ", "."]);
    assert Lower("Go") == "go";
    LowerToken("is");
    LowerToken("awesome");
  }

  /** Tokenize("Go is awesome.") is ["go", "is", "awesome"]. */
  lemma TokensGoIsAwesome()
    ensures Tokens("Go is awesome.") == ["go", "is", "awesome"]
  {
    GoIsAwesomeSentence();
    TokensOfGoIsAwesome("Go is awesome.");
  }
}
