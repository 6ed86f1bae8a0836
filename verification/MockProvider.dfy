/**
  The mock provider (providers.py): its answer, and the regular expression that cuts
  the answer into the chunks it streams.  File contents and the hash are inputs.
  */
module MockProvider {
  import opened Prelude
  import opened Text

  function Join(chunks: seq<string>): string {
    if chunks == [] then "" else chunks[0] + Join(chunks[1..])
  }

  /** Length of the longest prefix without, respectively of only, whitespace. */
  function WordLength(s: string): (n: nat)
    ensures n <= |s|
    ensures forall i | 0 <= i < n :: !IsSpace(s[i])
    ensures n < |s| ==> IsSpace(s[n])
  {
    if s == "" || IsSpace(s[0]) then 0 else 1 + WordLength(s[1..])
  }

  function GapLength(s: string): (n: nat)
    ensures n <= |s|
    ensures forall i | 0 <= i < n :: IsSpace(s[i])
    ensures n < |s| ==> !IsSpace(s[n])
  {
    if s == "" || !IsSpace(s[0]) then 0 else 1 + GapLength(s[1..])
  }

  /** Length of one match: a word and the gap behind it. */
  function MatchLength(s: string): (n: nat)
    requires s != "" && !IsSpace(s[0])
    ensures 0 < n <= |s|
    ensures n < |s| ==> !IsSpace(s[n])
  {
    var w := WordLength(s);
    var n := w + GapLength(s[w..]);
    assert n < |s| ==> s[n] == s[w..][n - w];
    n
  }

  /** `re.findall(r"\S+\s*", text)` */
  function FindAll(s: string): seq<string>
    decreases |s|
  {
    if s == "" then []
    else if IsSpace(s[0]) then FindAll(s[1..])
    else [s[..MatchLength(s)]] + FindAll(s[MatchLength(s)..])
  }

  /** `text.split()` */
  function Split(s: string): seq<string>
    decreases |s|
  {
    if s == "" then []
    else if IsSpace(s[0]) then Split(s[1..])
    else [s[..WordLength(s)]] + Split(s[WordLength(s)..])
  }

  /** `re.findall(...) or [text]` */
  function Chunks(text: string): seq<string> {
    if FindAll(text) == [] then [text] else FindAll(text)
  }

  /******* What the chunks are *******/

  lemma {:induction false} FindAllKeepsAllButLeadingSpace(s: string)
    ensures Join(FindAll(s)) == LeftStrip(s)
    decreases |s|
  {
    if s != "" && IsSpace(s[0]) {
      FindAllKeepsAllButLeadingSpace(s[1..]);
    } else if s != "" {
      var n := MatchLength(s);
      var rest := s[n..];
      FindAllKeepsAllButLeadingSpace(rest);
      LeftStripFixes(rest);
      LeftStripFixes(s);
      JoinCons(s[..n], FindAll(rest));
      FirstMatch(s, n, rest);
    }
  }

  lemma {:induction false} FirstMatch(s: string, n: nat, rest: string)
    requires s != "" && !IsSpace(s[0]) && n == MatchLength(s) && rest == s[n..]
    ensures FindAll(s) == [s[..n]] + FindAll(rest) && s == s[..n] + rest
    ensures rest == "" || !IsSpace(rest[0])
  {
  }

  lemma {:induction false} JoinCons(chunk: string, chunks: seq<string>)
    ensures Join([chunk] + chunks) == chunk + Join(chunks)
  {
    assert ([chunk] + chunks)[1..] == chunks;
  }

  lemma {:induction false} SplitSkipsGap(s: string)
    ensures Split(s) == Split(s[GapLength(s)..])
    decreases |s|
  {
    if s != "" && IsSpace(s[0]) {
      SplitSkipsGap(s[1..]);
      assert s[GapLength(s)..] == s[1..][GapLength(s[1..])..];
    } else {
      assert s[0..] == s;
    }
  }

  /** One match per word. */
  lemma {:induction false} OneChunkPerWord(s: string)
    ensures |FindAll(s)| == |Split(s)|
    decreases |s|
  {
    if s != "" && IsSpace(s[0]) {
      OneChunkPerWord(s[1..]);
    } else if s != "" {
      OneChunkPerWord(s[MatchLength(s)..]);
      SplitAfterMatch(s);
    }
  }

  lemma {:induction false} SplitAfterMatch(s: string)
    requires s != "" && !IsSpace(s[0])
    ensures Split(s[WordLength(s)..]) == Split(s[MatchLength(s)..])
  {
    var w := WordLength(s);
    SplitSkipsGap(s[w..]);
    assert s[w..][GapLength(s[w..])..] == s[MatchLength(s)..];
  }

  lemma {:induction false} NoChunkExactlyWhenBlank(s: string)
    ensures FindAll(s) == [] <==> Blank(s)
    decreases |s|
  {
    if s != "" && IsSpace(s[0]) {
      NoChunkExactlyWhenBlank(s[1..]);
      assert Blank(s) <==> Blank(s[1..]) by {
        if Blank(s) { assert forall i | 0 <= i < |s[1..]| :: s[1..][i] == s[i + 1]; }
        if Blank(s[1..]) { assert forall i | 1 <= i < |s| :: s[i] == s[1..][i - 1]; }
      }
    }
  }

  lemma {:induction false} LeftStripFixes(s: string)
    ensures LeftStrip(s) == s <==> s == "" || !IsSpace(s[0])
  {
    if s != "" && IsSpace(s[0]) {
      LeftStripTrims(s[1..]);
      assert |LeftStrip(s)| <= |s[1..]|;
    }
  }

  /** The chunks concatenate to the text exactly when it does not start with
      whitespace, or is nothing but whitespace. */
  lemma ChunksRebuildTextExactly(text: string)
    ensures Join(Chunks(text)) == text <==> Blank(text) || !IsSpace(text[0])
  {
    NoChunkExactlyWhenBlank(text);
    if FindAll(text) == [] {
      assert [text][1..] == [];
    } else {
      FindAllKeepsAllButLeadingSpace(text);
      LeftStripFixes(text);
    }
  }

  /** The number of chunks is the word count reported as output tokens, except for a
      blank text, which is one chunk and no word. */
  lemma {:induction false} ChunkCountIsWordCount(text: string)
    ensures |Chunks(text)| == |Split(text)| <==> !Blank(text)
    ensures Blank(text) ==> |Chunks(text)| == 1 && |Split(text)| == 0
  {
    NoChunkExactlyWhenBlank(text);
    OneChunkPerWord(text);
  }

  /** Not empty, and without whitespace. */
  ghost predicate IsWord(w: string) {
    w != "" && forall j | 0 <= j < |w| :: !IsSpace(w[j])
  }

  ghost predicate AreWords(words: seq<string>) {
    forall i | 0 <= i < |words| :: IsWord(words[i])
  }

  lemma {:induction false} SplitGivesWords(s: string)
    ensures AreWords(Split(s))
    decreases |s|
  {
    if s != "" && IsSpace(s[0]) {
      SplitGivesWords(s[1..]);
    } else if s != "" {
      SplitGivesWords(s[WordLength(s)..]);
    }
  }

  lemma {:induction false} FirstWordAndGap(s: string, w: nat, n: nat, rest: string)
    requires s != "" && !IsSpace(s[0]) && w == WordLength(s) && n == MatchLength(s) && rest == s[n..]
    ensures w <= n && Split(s) == [s[..w]] + Split(rest)
    ensures s[..w] <= s[..n] && Blank(s[..n][w..])
  {
    SplitAfterMatch(s);
    forall k | 0 <= k < n - w
      ensures IsSpace(s[..n][w..][k])
    { assert s[..n][w..][k] == s[w..][k]; }
  }

  ghost predicate IsWordAndGap(word: string, chunk: string) {
    word <= chunk && Blank(chunk[|word|..])
  }

  /** Each chunk is the word at its position and the whitespace behind that word. */
  lemma {:induction false} ChunksAreWordsAndGaps(s: string)
    ensures |FindAll(s)| == |Split(s)|
    ensures forall i | 0 <= i < |Split(s)| :: IsWordAndGap(Split(s)[i], FindAll(s)[i])
    decreases |s|
  {
    if s != "" && IsSpace(s[0]) {
      ChunksAreWordsAndGaps(s[1..]);
    } else if s != "" {
      var w, n := WordLength(s), MatchLength(s);
      FirstWordAndGap(s, w, n, s[n..]);
      FirstMatch(s, n, s[n..]);
      ChunksAreWordsAndGaps(s[n..]);
      AppendPair(s[..w], Split(s[n..]), s[..n], FindAll(s[n..]), Split(s), FindAll(s));
    }
  }

  lemma AppendPair(word: string, words: seq<string>, chunk: string, chunks: seq<string>, ws: seq<string>, cs: seq<string>)
    requires |words| == |chunks| && IsWordAndGap(word, chunk) && ws == [word] + words && cs == [chunk] + chunks
    requires forall i | 0 <= i < |words| :: IsWordAndGap(words[i], chunks[i])
    ensures |ws| == |cs| && forall i | 0 <= i < |ws| :: IsWordAndGap(ws[i], cs[i])
  {
  }

  lemma {:induction false} WordThenRest(w: string, rest: string, s: string)
    requires IsWord(w) && s == w + rest && (rest == "" || IsSpace(rest[0]))
    ensures Split(s) == [w] + Split(rest)
  {
    var n := WordLength(s);
    assert forall k | 0 <= k < |w| :: s[k] == w[k];
    assert rest != "" ==> s[|w|] == rest[0];
    assert s[0] == w[0] && n == |w|;
    assert s[..n] == w && s[n..] == rest;
  }

  lemma {:induction false} OneWord(w: string)
    requires IsWord(w)
    ensures Split(w) == [w]
  {
    assert w + "" == w;
    WordThenRest(w, "", w);
  }

  lemma {:induction false} WordBefore(w: string, later: string)
    requires IsWord(w)
    ensures Split(w + " " + later) == [w] + Split(later)
  {
    var rest := " " + later;
    assert w + " " + later == w + rest && IsSpace(rest[0]) && rest[1..] == later;
    WordThenRest(w, rest, w + rest);
  }

  lemma {:induction false} FirstWordsAreWords(words: seq<string>, n: nat, text: string)
    requires AreWords(words) && text == FirstWords(words, n)
    ensures Split(text) == words[..if n < |words| then n else |words|]
    decreases |words|
  {
    if n > 0 && words != [] {
      if n == 1 || |words| == 1 {
        OneWord(words[0]);
      } else {
        var later := FirstWords(words[1..], n - 1);
        FirstWordsAreWords(words[1..], n - 1, later);
        WordBefore(words[0], later);
        FirstAndLater(words, n);
      }
    }
  }

  lemma FirstAndLater(words: seq<string>, n: nat)
    requires n > 1 && |words| > 1
    ensures var m := if n < |words| then n else |words|;
      words[..m] == [words[0]] + words[1..][..if n - 1 < |words| - 1 then n - 1 else |words| - 1]
  {
  }

  /******* The answer *******/

  datatype Script = FailScript(content: string) | TextScript(content: string) | NoScript

  const TONES := ["Acknowledged", "Understood", "Confirmed", "Noted"]

  function FirstWords(words: seq<string>, n: nat): string {
    if n == 0 || words == [] then ""
    else if n == 1 || |words| == 1 then words[0]
    else words[0] + " " + FirstWords(words[1..], n - 1)
  }

  /** `_mock_answer`: a pinned script wins; otherwise filler from the fingerprint. */
  function MockAnswer(script: Script, prompt: string, seed: nat, tag: string): Result<string, string> {
    match script
    case FailScript(content) => Failure(if Strip(content) == "" then "simulated provider outage" else Strip(content))
    case TextScript(content) => Success(Strip(content))
    case NoScript => Success(TONES[seed % 4] + Filler(Subject(prompt), tag))
  }

  /** `" ".join(prompt.split()[:8]) or "the request"` */
  function Subject(prompt: string): string {
    var words := FirstWords(Split(prompt), 8);
    if words == "" then "the request" else words
  }

  function Filler(subject: string, tag: string): string {
    ". Regarding " + subject
    + " -- I have reviewed the details and recommend proceeding with the documented resolution path. [mock:" + tag + "]"
  }

  /** Without a script the answer is in one of four tones, chosen by the fingerprint. */
  lemma AnswerNamesSubject(prompt: string, seed: nat, tag: string) returns (tone: string)
    ensures tone == if seed % 4 == 0 then "Acknowledged" else if seed % 4 == 1 then "Understood"
                    else if seed % 4 == 2 then "Confirmed" else "Noted"
    ensures MockAnswer(NoScript, prompt, seed, tag) == Success(tone + Filler(Subject(prompt), tag))
  {
    tone := TONES[seed % 4];
  }

  /** And it names the first eight words of the prompt, or "the request" if there are none. */
  lemma {:induction false} SubjectExactly(prompt: string)
    ensures Blank(prompt) ==> Subject(prompt) == "the request"
    ensures !Blank(prompt) ==> Split(Subject(prompt)) == if |Split(prompt)| <= 8 then Split(prompt) else Split(prompt)[..8]
  {
    SplitGivesWords(prompt);
    FirstWordsAreWords(Split(prompt), 8, FirstWords(Split(prompt), 8));
    OneChunkPerWord(prompt);
    NoChunkExactlyWhenBlank(prompt);
  }

  /** A script's content, without the whitespace around it, is the answer, or the error
      of a script that fails; a blank failing script gets a text of its own. */
  lemma ScriptsArePinned(content: string, prompt: string, seed: nat, tag: string) returns (a: string, text: string, b: string)
    ensures content == a + text + b && Blank(a) && Blank(b)
    ensures text != "" ==> !IsSpace(text[0]) && !IsSpace(text[|text| - 1])
    ensures MockAnswer(TextScript(content), prompt, seed, tag) == Success(text)
    ensures MockAnswer(FailScript(content), prompt, seed, tag)
         == Failure(if Blank(content) then "simulated provider outage" else text)
  {
    text := Strip(content);
    a, b := StripDrops(content);
    StripEmptyExactly(content);
  }

  lemma AnswersDoNotStartWithSpace(script: Script, prompt: string, seed: nat, tag: string, text: string)
    requires MockAnswer(script, prompt, seed, tag) == Success(text)
    ensures text == "" || !Blank(text)
    ensures text == "" || !IsSpace(text[0])
  {
    if script.TextScript? {
      StripTrims(script.content);
    } else if script.NoScript? {
      var tone := TONES[seed % 4];
      TonesStartWithLetters(seed % 4);
      StartsLike(text, tone, Filler(Subject(prompt), tag));
    }
  }

  lemma StartsLike(text: string, tone: string, rest: string)
    requires text == tone + rest && tone != "" && !IsSpace(tone[0])
    ensures !Blank(text) && !IsSpace(text[0])
  {
    assert text[0] == tone[0];
  }

  lemma TonesStartWithLetters(k: nat)
    requires k < |TONES|
    ensures TONES[k] != "" && !IsSpace(TONES[k][0])
  {
    assert TONES[k] in TONES;
    assert "Acknowledged"[0] == 'A' && "Understood"[0] == 'U' && "Confirmed"[0] == 'C' && "Noted"[0] == 'N';
  }

  /** `_generate_mock` with a listener: what it returns and what it publishes. */
  method GenerateMock(script: Script, prompt: string, seed: nat, tag: string)
    returns (result: Result<string, string>, published: seq<string>, outputTokens: nat)
    ensures result == MockAnswer(script, prompt, seed, tag)
    ensures result.Success? ==> Join(published) == result.value
    ensures result.Success? && result.value != "" ==> outputTokens == |published|
    ensures result.Failure? ==> published == []
  {
    result := MockAnswer(script, prompt, seed, tag);
    if result.Failure? {
      return result, [], 0;
    }
    var text := result.value;
    AnswersDoNotStartWithSpace(script, prompt, seed, tag, text);
    published, outputTokens := Stream(text);
  }

  /** The chunk loop. */
  method Stream(text: string) returns (published: seq<string>, outputTokens: nat)
    ensures published == Chunks(text) && outputTokens == |Split(text)|
    ensures Blank(text) || !IsSpace(text[0]) ==> Join(published) == text
    ensures !Blank(text) ==> outputTokens == |published|
  {
    outputTokens := |Split(text)|;
    var chunks := Chunks(text);
    published := [];
    var i := 0;
    while i < |chunks|
      invariant i <= |chunks|
      invariant published == chunks[..i]
    {
      published := published + [chunks[i]];
      i := i + 1;
    }
    assert published == chunks;
    ChunksRebuildTextExactly(text);
    ChunkCountIsWordCount(text);
  }
}
