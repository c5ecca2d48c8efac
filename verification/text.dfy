/**
 * The text combinators of vjp/text.py: pipelines of string transforms,
 * punctuation removal, dictionary lemmatization and the count pipelines.
 * Python's Unicode `str.isalnum`, `str.isspace` and `str.lower`, and the
 * stopword filter, are parameters.
 */
module Text {
  import opened Wrappers

  type Transform = string -> string

  // ---------------------------------------------------------------------
  // text_pipeline

  /** `fn(...f2(f1(text)))` for `callables == [f1, ..., fn]`. */
  function Composed(callables: seq<Transform>, text: string): string {
    if |callables| == 0 then text
    else callables[|callables| - 1](Composed(callables[..|callables| - 1], text))
  }

  /** `text_pipeline(*callables)`: the callable that the inner `pipeline` closure is. */
  function TextPipeline(callables: seq<Transform>): Transform {
    text => Composed(callables, text)
  }

  /** The inner `pipeline(text)`: feed `text` through the callables one at a time. */
  method RunPipeline(callables: seq<Transform>, text: string) returns (result: string)
    ensures result == Composed(callables, text)
  {
    result := text;
    for i := 0 to |callables|
      invariant result == Composed(callables[..i], text)
    {
      assert callables[..i + 1][..i] == callables[..i];
      result := callables[i](result);
    }
    assert callables[..|callables|] == callables;
  }

  /** An empty pipeline is the identity; running `fs + gs` runs `fs`, then `gs`. */
  lemma {:induction false} PipelineConcat(fs: seq<Transform>, gs: seq<Transform>, text: string)
    ensures Composed([], text) == text
    ensures Composed(fs + gs, text) == Composed(gs, Composed(fs, text))
  {
    if |gs| == 0 {
      assert fs + gs == fs;
    } else {
      assert (fs + gs)[..|fs + gs| - 1] == fs + gs[..|gs| - 1];
      PipelineConcat(fs, gs[..|gs| - 1], text);
    }
  }

  /** A pipeline used as the head of another behaves like its callables spliced in. */
  lemma NestedPipelineFlattens(fs: seq<Transform>, gs: seq<Transform>, text: string)
    ensures Composed([TextPipeline(fs)] + gs, text) == Composed(fs + gs, text)
  {
    PipelineConcat([TextPipeline(fs)], gs, text);
    PipelineConcat(fs, gs, text);
    assert [TextPipeline(fs)][..0] == [];
  }

  // ---------------------------------------------------------------------
  // remove_punctuation

  /** `''.join(c if c.isalnum() else replace_with for c in text)`. */
  function RemovePunctuation(text: string, replaceWith: string, isAlnum: char -> bool): string {
    if |text| == 0 then ""
    else RemovePunctuation(text[..|text| - 1], replaceWith, isAlnum)
         + (if isAlnum(text[|text| - 1]) then [text[|text| - 1]] else replaceWith)
  }

  /**
   * With a one-character replacement the length is kept, alphanumerics stay
   * in place and every other character becomes the replacement.
   */
  lemma {:induction false} PunctuationReplacedInPlace(text: string, c: char, isAlnum: char -> bool)
    ensures |RemovePunctuation(text, [c], isAlnum)| == |text|
    ensures forall i :: 0 <= i < |text| ==>
      RemovePunctuation(text, [c], isAlnum)[i] == if isAlnum(text[i]) then text[i] else c
  {
    if |text| > 0 {
      var init := text[..|text| - 1];
      PunctuationReplacedInPlace(init, c, isAlnum);
      assert forall i :: 0 <= i < |init| ==> init[i] == text[i];
    }
  }

  /**
   * With the default replacement `' '` (not alphanumeric) the output holds only
   * alphanumerics and spaces, and removing punctuation twice is removing it once.
   */
  lemma DefaultPunctuationIdempotent(text: string, isAlnum: char -> bool)
    requires !isAlnum(' ')
    ensures forall i :: 0 <= i < |RemovePunctuation(text, " ", isAlnum)| ==>
      isAlnum(RemovePunctuation(text, " ", isAlnum)[i]) || RemovePunctuation(text, " ", isAlnum)[i] == ' '
    ensures RemovePunctuation(RemovePunctuation(text, " ", isAlnum), " ", isAlnum) == RemovePunctuation(text, " ", isAlnum)
  {
    var once := RemovePunctuation(text, " ", isAlnum);
    PunctuationReplacedInPlace(text, ' ', isAlnum);
    PunctuationReplacedInPlace(once, ' ', isAlnum);
    var twice := RemovePunctuation(once, " ", isAlnum);
    assert forall i :: 0 <= i < |once| ==> twice[i] == once[i];
  }

  /** Punctuation is removed character by character, so removal distributes over concatenation. */
  lemma {:induction false} RemovePunctuationAppend(t: string, u: string, replaceWith: string, isAlnum: char -> bool)
    ensures RemovePunctuation(t + u, replaceWith, isAlnum)
         == RemovePunctuation(t, replaceWith, isAlnum) + RemovePunctuation(u, replaceWith, isAlnum)
    decreases |u|
  {
    if |u| == 0 {
      assert t + u == t;
    } else {
      var init := u[..|u| - 1];
      assert (t + u)[..|t + u| - 1] == t + init;
      assert (t + u)[|t + u| - 1] == u[|u| - 1];
      RemovePunctuationAppend(t, init, replaceWith, isAlnum);
    }
  }

  /**
   * With an empty replacement every non-alphanumeric character is deleted and
   * every alphanumeric one is kept where it was: around any position `i` the
   * output is the output for the text before `i`, then `text[i]` if it is
   * alphanumeric, then the output for the text after `i`.
   */
  lemma EmptyReplacementDeletes(text: string, isAlnum: char -> bool)
    ensures |RemovePunctuation(text, "", isAlnum)| <= |text|
    ensures forall i :: 0 <= i < |RemovePunctuation(text, "", isAlnum)| ==> isAlnum(RemovePunctuation(text, "", isAlnum)[i])
    ensures forall i :: 0 <= i < |text| ==>
      RemovePunctuation(text, "", isAlnum)
        == RemovePunctuation(text[..i], "", isAlnum)
           + (if isAlnum(text[i]) then [text[i]] else "")
           + RemovePunctuation(text[i + 1..], "", isAlnum)
  {
    OnlyAlnumsLeft(text, isAlnum);
    forall i | 0 <= i < |text|
      ensures RemovePunctuation(text, "", isAlnum)
           == RemovePunctuation(text[..i], "", isAlnum)
              + (if isAlnum(text[i]) then [text[i]] else "")
              + RemovePunctuation(text[i + 1..], "", isAlnum)
    {
      DeletedAt(text, i, isAlnum);
    }
  }

  lemma {:induction false} OnlyAlnumsLeft(text: string, isAlnum: char -> bool)
    ensures |RemovePunctuation(text, "", isAlnum)| <= |text|
    ensures forall i :: 0 <= i < |RemovePunctuation(text, "", isAlnum)| ==> isAlnum(RemovePunctuation(text, "", isAlnum)[i])
  {
    if |text| > 0 {
      OnlyAlnumsLeft(text[..|text| - 1], isAlnum);
    }
  }

  lemma DeletedAt(text: string, i: nat, isAlnum: char -> bool)
    requires i < |text|
    ensures RemovePunctuation(text, "", isAlnum)
         == RemovePunctuation(text[..i], "", isAlnum)
            + (if isAlnum(text[i]) then [text[i]] else "")
            + RemovePunctuation(text[i + 1..], "", isAlnum)
  {
    SplitAround(text, i);
    DeletedBetween(text[..i], text[i], text[i + 1..], isAlnum);
  }

  lemma SplitAround<T>(s: seq<T>, i: nat)
    requires i < |s|
    ensures s == s[..i] + ([s[i]] + s[i + 1..])
  {
  }

  lemma DeletedBetween(before: string, c: char, after: string, isAlnum: char -> bool)
    ensures RemovePunctuation(before + ([c] + after), "", isAlnum)
         == RemovePunctuation(before, "", isAlnum) + (if isAlnum(c) then [c] else "") + RemovePunctuation(after, "", isAlnum)
  {
    RemovePunctuationAppend(before, [c] + after, "", isAlnum);
    RemovePunctuationAppend([c], after, "", isAlnum);
    PunctuationOfChar(c, "", isAlnum);
  }

  lemma PunctuationOfChar(c: char, replaceWith: string, isAlnum: char -> bool)
    ensures RemovePunctuation([c], replaceWith, isAlnum) == if isAlnum(c) then [c] else replaceWith
  {
    assert [c][..0] == [];
  }

  // ---------------------------------------------------------------------
  // str.split() and ' '.join

  /** Length of the run of non-whitespace characters that starts `s`. */
  function WordLength(s: string, isSpace: char -> bool): (n: nat)
    ensures n <= |s|
    ensures forall i :: 0 <= i < n ==> !isSpace(s[i])
    ensures n == |s| || isSpace(s[n])
  {
    if |s| == 0 || isSpace(s[0]) then 0
    else 1 + WordLength(s[1..], isSpace)
  }

  /** `s.split()`: the maximal runs of non-whitespace characters, in order. */
  function Words(s: string, isSpace: char -> bool): seq<string>
    decreases |s|
  {
    if |s| == 0 then []
    else if isSpace(s[0]) then Words(s[1..], isSpace)
    else
      var n := WordLength(s, isSpace);
      [s[..n]] + Words(s[n..], isSpace)
  }

  /** A word in the sense of `split()`: non-empty, with no whitespace. */
  predicate IsWord(w: string, isSpace: char -> bool) {
    |w| > 0 && forall i :: 0 <= i < |w| ==> !isSpace(w[i])
  }

  lemma {:induction false} WordsAreWords(s: string, isSpace: char -> bool)
    ensures forall j :: 0 <= j < |Words(s, isSpace)| ==> IsWord(Words(s, isSpace)[j], isSpace)
    decreases |s|
  {
    if |s| > 0 {
      if isSpace(s[0]) {
        WordsAreWords(s[1..], isSpace);
      } else {
        var n := WordLength(s, isSpace);
        WordsAreWords(s[n..], isSpace);
      }
    }
  }

  /** `' '.join(words)`. */
  function JoinWords(words: seq<string>): string {
    if |words| == 0 then ""
    else if |words| == 1 then words[0]
    else words[0] + " " + JoinWords(words[1..])
  }

  /** Joining words with single spaces and splitting again gives the words back. */
  lemma {:induction false} SplitJoinRoundTrip(words: seq<string>, isSpace: char -> bool)
    requires isSpace(' ')
    requires forall j :: 0 <= j < |words| ==> IsWord(words[j], isSpace)
    ensures Words(JoinWords(words), isSpace) == words
  {
    if |words| > 0 {
      var w := words[0];
      var s := JoinWords(words);
      assert !isSpace(w[0]);
      if |words| == 1 {
        assert s == w;
        assert WordLength(w, isSpace) == |w|;
        assert w[..|w|] == w && w[|w|..] == [];
        assert Words(s, isSpace) == [w] + Words([], isSpace);
      } else {
        var rest := JoinWords(words[1..]);
        assert s == w + " " + rest;
        assert s[|w|] == ' ';
        var n := WordLength(s, isSpace);
        assert n == |w|;
        assert s[..n] == w;
        assert s[n..][1..] == rest;
        SplitJoinRoundTrip(words[1..], isSpace);
      }
    }
  }

  // ---------------------------------------------------------------------
  // lemmatize

  /** `lemmatization_dict.get(word)` when dropping, `.get(word, word)` when keeping. */
  function Lookup(word: string, dict: map<string, string>, dropMissing: bool): Option<string> {
    if word in dict then Some(dict[word])
    else if dropMissing then None
    else Some(word)
  }

  /** `filter(bool, map(map_fun, words))`: `None` and `''` are dropped. */
  function Lemmas(words: seq<string>, dict: map<string, string>, dropMissing: bool): seq<string> {
    if |words| == 0 then []
    else
      var rest := Lemmas(words[1..], dict, dropMissing);
      match Lookup(words[0], dict, dropMissing)
      case Some(l) => if l != "" then [l] + rest else rest
      case None => rest
  }

  /** `lemmatize(text, lemmatization_dict, drop_missing)`. */
  function Lemmatize(text: string, dict: map<string, string>, dropMissing: bool, isSpace: char -> bool): string {
    JoinWords(Lemmas(Words(text, isSpace), dict, dropMissing))
  }

  /**
   * The pieces are, in order, the non-empty images of the words: a word in the
   * dictionary gives its lemma, a missing word itself when kept and nothing
   * when dropped; there are never more pieces than words.
   */
  lemma {:induction false} LemmasSpec(words: seq<string>, dict: map<string, string>, dropMissing: bool)
    ensures |Lemmas(words, dict, dropMissing)| <= |words|
    ensures forall j :: 0 <= j < |Lemmas(words, dict, dropMissing)| ==> Lemmas(words, dict, dropMissing)[j] != ""
    ensures forall p :: p in Lemmas(words, dict, dropMissing) <==>
      p != "" && exists j :: 0 <= j < |words| && Lookup(words[j], dict, dropMissing) == Some(p)
  {
    if |words| > 0 {
      LemmasSpec(words[1..], dict, dropMissing);
      forall p | p != "" && (exists j :: 0 <= j < |words| && Lookup(words[j], dict, dropMissing) == Some(p))
        ensures p in Lemmas(words, dict, dropMissing)
      {
        var j :| 0 <= j < |words| && Lookup(words[j], dict, dropMissing) == Some(p);
        if j > 0 {
          assert words[1..][j - 1] == words[j];
        }
      }
      forall p | p in Lemmas(words, dict, dropMissing)
        ensures exists j :: 0 <= j < |words| && Lookup(words[j], dict, dropMissing) == Some(p)
      {
        if p !in Lemmas(words[1..], dict, dropMissing) {
          assert Lookup(words[0], dict, dropMissing) == Some(p);
        } else {
          var j :| 0 <= j < |words[1..]| && Lookup(words[1..][j], dict, dropMissing) == Some(p);
          assert words[j + 1] == words[1..][j];
        }
      }
    }
  }

  /** `lemmatize` works word by word: the pieces of `a + b` are those of `a`, then those of `b`. */
  lemma {:induction false} LemmasAppend(a: seq<string>, b: seq<string>, dict: map<string, string>, dropMissing: bool)
    ensures Lemmas(a + b, dict, dropMissing) == Lemmas(a, dict, dropMissing) + Lemmas(b, dict, dropMissing)
  {
    if |a| == 0 {
      assert a + b == b;
    } else {
      assert (a + b)[0] == a[0];
      assert (a + b)[1..] == a[1..] + b;
      LemmasAppend(a[1..], b, dict, dropMissing);
    }
  }

  /**
   * The pieces of one word: its lemma when the dictionary has a non-empty one,
   * the word itself when it is missing and kept, and nothing otherwise.
   */
  lemma LemmasOfWord(w: string, dict: map<string, string>, dropMissing: bool)
    ensures Lemmas([w], dict, dropMissing) ==
      if w in dict then (if dict[w] != "" then [dict[w]] else [])
      else if !dropMissing && w != "" then [w]
      else []
  {
    assert [w][1..] == [];
  }

  /**
   * The pieces come in word order: those of the words before position `i`,
   * then those of `words[i]`, then those of the words after it.
   */
  lemma LemmasInOrder(words: seq<string>, i: nat, dict: map<string, string>, dropMissing: bool)
    requires i < |words|
    ensures Lemmas(words, dict, dropMissing)
         == Lemmas(words[..i], dict, dropMissing) + Lemmas([words[i]], dict, dropMissing) + Lemmas(words[i + 1..], dict, dropMissing)
  {
    SplitAround(words, i);
    LemmasAppend(words[..i], [words[i]] + words[i + 1..], dict, dropMissing);
    LemmasAppend([words[i]], words[i + 1..], dict, dropMissing);
  }

  /** A word missing from the dictionary passes unchanged, in its place, when missing words are kept. */
  lemma UnknownWordKeptInPlace(a: seq<string>, w: string, b: seq<string>, dict: map<string, string>)
    requires w !in dict && w != ""
    ensures Lemmas(a + [w] + b, dict, false) == Lemmas(a, dict, false) + [w] + Lemmas(b, dict, false)
  {
    LemmasAppend(a + [w], b, dict, false);
    LemmasAppend(a, [w], dict, false);
    LemmasOfWord(w, dict, false);
  }

  /** A word missing from the dictionary disappears, leaving its neighbours in order, when missing words are dropped. */
  lemma UnknownWordDropped(a: seq<string>, w: string, b: seq<string>, dict: map<string, string>)
    requires w !in dict
    ensures Lemmas(a + [w] + b, dict, true) == Lemmas(a, dict, true) + Lemmas(b, dict, true)
  {
    LemmasAppend(a + [w], b, dict, true);
    LemmasAppend(a, [w], dict, true);
    LemmasOfWord(w, dict, true);
  }

  /** With no dictionary entry for any word, keeping missing words only normalises whitespace. */
  lemma {:induction false} LemmasKeepUnknown(words: seq<string>, dict: map<string, string>, isSpace: char -> bool)
    requires forall j :: 0 <= j < |words| ==> IsWord(words[j], isSpace) && words[j] !in dict
    ensures Lemmas(words, dict, false) == words
  {
    if |words| > 0 {
      LemmasKeepUnknown(words[1..], dict, isSpace);
    }
  }

  /**
   * `lemmatize` with an empty dictionary returns the words of the text joined
   * by single spaces when keeping missing words, and `''` when dropping them.
   */
  lemma LemmatizeEmptyDict(text: string, isSpace: char -> bool)
    ensures Lemmatize(text, map[], false, isSpace) == JoinWords(Words(text, isSpace))
    ensures Lemmatize(text, map[], true, isSpace) == ""
  {
    WordsAreWords(text, isSpace);
    LemmasKeepUnknown(Words(text, isSpace), map[], isSpace);
    LemmasSpec(Words(text, isSpace), map[], true);
  }

  /** Every lemma in the dictionary is a single word. */
  predicate SingleWordLemmas(dict: map<string, string>, isSpace: char -> bool) {
    forall k :: k in dict ==> IsWord(dict[k], isSpace)
  }

  /**
   * When every lemma is a single word, the output of `lemmatize` splits back
   * into exactly its pieces: no empty piece, one space between pieces.
   */
  lemma LemmatizeResplits(text: string, dict: map<string, string>, dropMissing: bool, isSpace: char -> bool)
    requires isSpace(' ') && SingleWordLemmas(dict, isSpace)
    ensures Words(Lemmatize(text, dict, dropMissing, isSpace), isSpace) == Lemmas(Words(text, isSpace), dict, dropMissing)
  {
    var words := Words(text, isSpace);
    WordsAreWords(text, isSpace);
    PiecesAreWords(words, dict, dropMissing, isSpace);
    SplitJoinRoundTrip(Lemmas(words, dict, dropMissing), isSpace);
  }

  lemma {:induction false} PiecesAreWords(words: seq<string>, dict: map<string, string>, dropMissing: bool, isSpace: char -> bool)
    requires SingleWordLemmas(dict, isSpace)
    requires forall j :: 0 <= j < |words| ==> IsWord(words[j], isSpace)
    ensures forall j :: 0 <= j < |Lemmas(words, dict, dropMissing)| ==> IsWord(Lemmas(words, dict, dropMissing)[j], isSpace)
  {
    if |words| > 0 {
      PiecesAreWords(words[1..], dict, dropMissing, isSpace);
    }
  }

  /** `d[d[k]] == d[k]` for every key. */
  predicate Idempotent(dict: map<string, string>) {
    forall k :: k in dict ==> dict[k] in dict && dict[dict[k]] == dict[k]
  }

  /** Under an idempotent dictionary every piece maps to itself. */
  lemma {:induction false} PiecesAreFixed(words: seq<string>, dict: map<string, string>, dropMissing: bool)
    requires Idempotent(dict)
    ensures forall j :: 0 <= j < |Lemmas(words, dict, dropMissing)| ==>
      Lookup(Lemmas(words, dict, dropMissing)[j], dict, dropMissing) == Some(Lemmas(words, dict, dropMissing)[j])
  {
    if |words| > 0 {
      PiecesAreFixed(words[1..], dict, dropMissing);
    }
  }

  lemma {:induction false} LemmasOfFixed(pieces: seq<string>, dict: map<string, string>, dropMissing: bool)
    requires forall j :: 0 <= j < |pieces| ==> pieces[j] != "" && Lookup(pieces[j], dict, dropMissing) == Some(pieces[j])
    ensures Lemmas(pieces, dict, dropMissing) == pieces
  {
    if |pieces| > 0 {
      LemmasOfFixed(pieces[1..], dict, dropMissing);
    }
  }

  /**
   * With an idempotent dictionary (as `load_lemmas` builds) whose lemmas are
   * single words (an assumption about the data file), lemmatizing twice is
   * lemmatizing once, in either mode.
   */
  lemma LemmatizeIdempotent(text: string, dict: map<string, string>, dropMissing: bool, isSpace: char -> bool)
    requires isSpace(' ') && SingleWordLemmas(dict, isSpace) && Idempotent(dict)
    ensures Lemmatize(Lemmatize(text, dict, dropMissing, isSpace), dict, dropMissing, isSpace)
         == Lemmatize(text, dict, dropMissing, isSpace)
  {
    var pieces := Lemmas(Words(text, isSpace), dict, dropMissing);
    LemmatizeResplits(text, dict, dropMissing, isSpace);
    LemmasSpec(Words(text, isSpace), dict, dropMissing);
    PiecesAreFixed(Words(text, isSpace), dict, dropMissing);
    LemmasOfFixed(pieces, dict, dropMissing);
  }

  // ---------------------------------------------------------------------
  // The count pipelines

  /** The collaborators the module-level pipelines close over. */
  datatype TextConfig = TextConfig(
    lower: Transform,
    isAlnum: char -> bool,
    isSpace: char -> bool,
    removeStopwords: Transform,
    lemmas: map<string, string>)

  /** `remove_punctuation` with its default replacement. */
  function PunctuationStep(cfg: TextConfig): Transform {
    text => RemovePunctuation(text, " ", cfg.isAlnum)
  }

  /** `lemmatize` with the default dictionary, or `partial(lemmatize, drop_missing=False)`. */
  function LemmatizeStep(cfg: TextConfig, dropMissing: bool): Transform {
    text => Lemmatize(text, cfg.lemmas, dropMissing, cfg.isSpace)
  }

  function HeadCallables(cfg: TextConfig): seq<Transform> {
    [cfg.lower, PunctuationStep(cfg), cfg.removeStopwords]
  }

  /** `count_pipeline_head`. */
  function CountPipelineHead(cfg: TextConfig): Transform {
    TextPipeline(HeadCallables(cfg))
  }

  /** `count_drop_pipeline`. */
  function CountDropPipeline(cfg: TextConfig): Transform {
    TextPipeline([CountPipelineHead(cfg), LemmatizeStep(cfg, true)])
  }

  /** `count_keep_pipeline`. */
  function CountKeepPipeline(cfg: TextConfig): Transform {
    TextPipeline([CountPipelineHead(cfg), LemmatizeStep(cfg, false)])
  }

  /**
   * The count pipelines are the flat pipelines lower, punctuation, stopwords,
   * lemmatize: lemmatize(remove_stopwords(remove_punctuation(lower(text)))).
   */
  lemma CountPipelinesFlatten(cfg: TextConfig, text: string)
    ensures CountDropPipeline(cfg)(text) == Composed(HeadCallables(cfg) + [LemmatizeStep(cfg, true)], text)
    ensures CountKeepPipeline(cfg)(text) == Composed(HeadCallables(cfg) + [LemmatizeStep(cfg, false)], text)
    ensures CountDropPipeline(cfg)(text)
         == Lemmatize(cfg.removeStopwords(RemovePunctuation(cfg.lower(text), " ", cfg.isAlnum)), cfg.lemmas, true, cfg.isSpace)
  {
    var drop := [CountPipelineHead(cfg), LemmatizeStep(cfg, true)];
    var keep := [CountPipelineHead(cfg), LemmatizeStep(cfg, false)];
    assert CountDropPipeline(cfg)(text) == Composed(drop, text);
    assert CountKeepPipeline(cfg)(text) == Composed(keep, text);
    assert drop == [CountPipelineHead(cfg)] + [LemmatizeStep(cfg, true)];
    assert keep == [CountPipelineHead(cfg)] + [LemmatizeStep(cfg, false)];
    NestedPipelineFlattens(HeadCallables(cfg), [LemmatizeStep(cfg, true)], text);
    NestedPipelineFlattens(HeadCallables(cfg), [LemmatizeStep(cfg, false)], text);
    var h := HeadCallables(cfg);
    assert h[..2] == [cfg.lower, PunctuationStep(cfg)] && h[..2][..1] == [cfg.lower] && h[..2][..1][..0] == [];
    var flat := h + [LemmatizeStep(cfg, true)];
    assert flat[..3] == h;
    var lowered := cfg.lower(text);
    assert Composed(h[..1], text) == lowered;
    var punct := RemovePunctuation(lowered, " ", cfg.isAlnum);
    assert Composed(h[..2], text) == PunctuationStep(cfg)(lowered) == punct;
    assert Composed(h, text) == cfg.removeStopwords(punct);
    assert Composed(flat, text) == LemmatizeStep(cfg, true)(cfg.removeStopwords(punct));
  }
}
