/**
 * The string logic of the zero-shot classifier (vjp/zero_shot.py): the
 * predicates that read a completion, the search for a truncation threshold,
 * and the assembly of a prompt from a sample. The tokenizer is a pair of
 * functions given as a parameter; the completion service is not modelled.
 */
module ZeroShot {
  import opened Wrappers

  // ---------------------------------------------------------------------------
  // Substrings
  // ---------------------------------------------------------------------------

  /** Python's `needle in haystack` on strings, as a property: some window of `haystack` is `needle`. */
  ghost predicate Occurs(needle: string, haystack: string) {
    exists i, j :: 0 <= i <= j <= |haystack| && haystack[i..j] == needle
  }

  /** Python's `needle in haystack` on strings, by scanning from the left. */
  function Contains(haystack: string, needle: string): bool
    decreases |haystack|
  {
    if |haystack| < |needle| then false
    else haystack[..|needle|] == needle || Contains(haystack[1..], needle)
  }

  lemma {:induction false} ContainsIffOccurs(haystack: string, needle: string)
    ensures Contains(haystack, needle) <==> Occurs(needle, haystack)
    decreases |haystack|
  {
    if |haystack| < |needle| {
      forall i, j | 0 <= i <= j <= |haystack| ensures haystack[i..j] != needle {
        assert |haystack[i..j]| < |needle|;
      }
    } else if |haystack| == 0 {
      assert haystack[0..0] == needle;
    } else {
      var h, n := haystack, needle;
      ContainsIffOccurs(h[1..], n);
      if h[..|n|] == n {
        assert h[0..|n|] == n;
      }
      if Occurs(n, h[1..]) {
        var i, j :| 0 <= i <= j <= |h[1..]| && h[1..][i..j] == n;
        assert h[i + 1..j + 1] == n;
      }
      if Occurs(n, h) {
        var i, j :| 0 <= i <= j <= |h| && h[i..j] == n;
        if i == 0 {
          assert h[..|n|] == n;
        } else {
          assert h[1..][i - 1..j - 1] == n;
        }
      }
    }
  }

  /** A substring of a substring is a substring. */
  lemma OccursTransitive(a: string, b: string, c: string)
    requires Occurs(a, b) && Occurs(b, c)
    ensures Occurs(a, c)
  {
    var i, j :| 0 <= i <= j <= |b| && b[i..j] == a;
    var p, q :| 0 <= p <= q <= |c| && c[p..q] == b;
    forall m | 0 <= m < j - i ensures c[p + i..p + j][m] == a[m] {
      assert c[p + i..p + j][m] == c[p..q][i + m] == b[i + m];
    }
    assert c[p + i..p + j] == a;
    assert 0 <= p + i <= p + j <= |c|;
  }

  /** A string occurs in any string built around it. */
  lemma OccursInside(a: string, x: string, y: string)
    ensures Occurs(a, x + a + y)
  {
    assert (x + a + y)[|x|..|x| + |a|] == a;
  }

  // ---------------------------------------------------------------------------
  // Reading a completion
  // ---------------------------------------------------------------------------

  /** `retry_prompt`: ask again when the completion echoes the question or is too short. */
  function RetryPrompt(response: string): bool {
    if Contains(response, "true or false") then true
    else if |response| < 5 then true
    else false
  }

  lemma RetryPromptSpec(response: string)
    ensures RetryPrompt(response) <==> Occurs("true or false", response) || |response| < 5
  {
    ContainsIffOccurs(response, "true or false");
  }

  /** The words whose presence marks a completion as a rejection. */
  const RejectedWords: seq<string> := ["rejected", "respinge", "true", "infondata"]

  /** `is_response_rejected`: some rejected word occurs, case-sensitively, in the completion. */
  function IsResponseRejected(response: string): bool {
    exists w :: w in RejectedWords && Contains(response, w)
  }

  lemma IsResponseRejectedSpec(response: string)
    ensures IsResponseRejected(response) <==>
      Occurs("rejected", response) || Occurs("respinge", response) ||
      Occurs("true", response) || Occurs("infondata", response)
  {
    ContainsIffOccurs(response, "rejected");
    ContainsIffOccurs(response, "respinge");
    ContainsIffOccurs(response, "true");
    ContainsIffOccurs(response, "infondata");
    assert RejectedWords[0] == "rejected" && RejectedWords[1] == "respinge";
    assert RejectedWords[2] == "true" && RejectedWords[3] == "infondata";
  }

  /** A completion that would be retried for echoing the question also counts as a rejection. */
  lemma EchoedQuestionReadsAsRejected(response: string)
    requires Occurs("true or false", response)
    ensures RetryPrompt(response) && IsResponseRejected(response)
  {
    RetryPromptSpec(response);
    IsResponseRejectedSpec(response);
    assert "true or false"[0..4] == "true";
    OccursTransitive("true", "true or false", response);
  }

  /**
   * The bare answers: "false" is accepted and read as not rejected, while
   * "true", four characters long, is retried; "True" is not a rejection,
   * since the match is case-sensitive.
   */
  lemma BareAnswers()
    ensures !RetryPrompt("false") && !IsResponseRejected("false")
    ensures RetryPrompt("true") && IsResponseRejected("true")
    ensures !IsResponseRejected("True")
  {
    assert !Contains("false", "true or false");
    assert "false"[..4][0] == 'f' && "false"[1..] == "alse";
    assert "alse"[..4][0] == 'a' && "alse"[1..] == "lse";
    assert !Contains("lse", "true");
    assert !Contains("alse", "true");
    assert !Contains("false", "true");
    assert "True"[..4][0] == 'T' && "True"[1..] == "rue";
    assert !Contains("rue", "true");
    assert !Contains("True", "true");
    assert "true"[..4] == "true";
    assert "true" in RejectedWords && Contains("true", "true");
    forall w | w in RejectedWords ensures !Contains("false", w) && !Contains("True", w) {
      assert w == "rejected" || w == "respinge" || w == "true" || w == "infondata";
    }
  }

  // ---------------------------------------------------------------------------
  // The truncation threshold
  // ---------------------------------------------------------------------------

  type Sample = map<string, string>

  /** Why `calculate_best_threshold` raises: `min` of an empty range, or a used feature absent. */
  datatype ThresholdError = EmptyArgmin | MissingFeature(key: string)

  /** The features the prompt uses, in prompt order. */
  const DefaultFeatures: seq<string> := ["fact", "req", "arg", "claim", "mot", "dec"]

  /** `sum(len(sample[k]) for k in used if k in sample)`. */
  function CharTotal(sample: Sample, used: seq<string>): nat {
    if |used| == 0 then 0
    else
      var k := used[|used| - 1];
      CharTotal(sample, used[..|used| - 1]) + (if k in sample then |sample[k]| else 0)
  }

  predicate AllPresent(sample: Sample, used: seq<string>) {
    forall i :: 0 <= i < |used| ==> used[i] in sample
  }

  /** The first used feature the sample lacks: the key `sample[k]` raises on. */
  function FirstMissing(sample: Sample, used: seq<string>): (r: Option<string>)
    ensures r.None? <==> AllPresent(sample, used)
    ensures r.Some? ==> (r.value !in sample &&
      exists i :: 0 <= i < |used| && used[i] == r.value && AllPresent(sample, used[..i]))
  {
    if |used| == 0 then None
    else if used[0] !in sample then
      assert used[0] == used[0] && AllPresent(sample, used[..0]);
      Some(used[0])
    else
      var r := FirstMissing(sample, used[1..]);
      if r.Some? then
        var i :| 0 <= i < |used[1..]| && used[1..][i] == r.value && AllPresent(sample, used[1..][..i]);
        assert used[i + 1] == r.value;
        assert forall j :: 0 <= j < i + 1 ==> used[..i + 1][j] == used[j];
        assert AllPresent(sample, used[..i + 1]);
        assert 0 <= i + 1 < |used| && used[i + 1] == r.value && AllPresent(sample, used[..i + 1]);
        r
      else
        assert forall j :: 0 < j < |used| ==> used[j] == used[1..][j - 1];
        r
  }

  function Min(a: int, b: int): int {
    if a <= b then a else b
  }

  /** `sum(min(th, len(encode(sample[k]))) for k in used)`: tokens kept when every feature is cut at `th`. */
  function TokenTotal(encode: string -> seq<int>, sample: Sample, used: seq<string>, th: nat): nat
    requires AllPresent(sample, used)
  {
    if |used| == 0 then 0
    else
      TokenTotal(encode, sample, used[..|used| - 1], th) + Min(th, |encode(sample[used[|used| - 1]])|)
  }

  /** How far cutting at `th` lands from the budget. */
  function Deviation(encode: string -> seq<int>, sample: Sample, used: seq<string>, maxLength: int, th: nat): nat
    requires AllPresent(sample, used)
  {
    var d := TokenTotal(encode, sample, used, th) - maxLength;
    if d < 0 then -d else d
  }

  /** The list `argmin` runs over: one deviation per `th` in `range(0, max_length)`. */
  function Deviations(encode: string -> seq<int>, sample: Sample, used: seq<string>, maxLength: int): (ds: seq<int>)
    requires AllPresent(sample, used)
    ensures |ds| == if maxLength > 0 then maxLength else 0
  {
    seq(if maxLength > 0 then maxLength else 0,
        th requires 0 <= th && AllPresent(sample, used) => Deviation(encode, sample, used, maxLength, th))
  }

  /** `argmin`: the first index of a least element, as `min(range(len(x)), key=...)` returns it; None when `min` raises. */
  function ArgMin(xs: seq<int>): (r: Option<nat>)
    ensures r.Some? <==> |xs| > 0
    ensures r.Some? ==> (r.value < |xs|
      && (forall j :: 0 <= j < |xs| ==> xs[r.value] <= xs[j])
      && (forall j :: 0 <= j < r.value ==> xs[r.value] < xs[j]))
  {
    if |xs| == 0 then None
    else if |xs| == 1 then Some(0)
    else
      var init := xs[..|xs| - 1];
      var k := ArgMin(init).value;
      assert forall j :: 0 <= j < |init| ==> init[j] == xs[j];
      if xs[|xs| - 1] < xs[k] then Some(|xs| - 1) else Some(k)
  }

  /** `th` is the smallest threshold whose deviation no other threshold in `range(0, max_length)` beats. */
  predicate IsFirstBest(encode: string -> seq<int>, sample: Sample, used: seq<string>, maxLength: int, th: int)
    requires AllPresent(sample, used)
  {
    0 <= th < maxLength
    && (forall t :: 0 <= t < maxLength ==>
          Deviation(encode, sample, used, maxLength, th) <= Deviation(encode, sample, used, maxLength, t))
    && (forall t :: 0 <= t < th ==>
          Deviation(encode, sample, used, maxLength, th) < Deviation(encode, sample, used, maxLength, t))
  }

  /** `calculate_best_threshold` with the tokenizer's `encode` as a parameter. */
  function CalculateBestThreshold(encode: string -> seq<int>, sample: Sample, maxLength: int, used: seq<string>)
    : (r: Result<int, ThresholdError>)
    ensures CharTotal(sample, used) <= maxLength ==> r == Success(maxLength)
    ensures CharTotal(sample, used) > maxLength ==>
      (r == Failure(EmptyArgmin) <==> maxLength <= 0)
    ensures CharTotal(sample, used) > maxLength && maxLength > 0 ==>
      (r.Failure? <==> !AllPresent(sample, used)) &&
      (r.Failure? ==> r.error == MissingFeature(FirstMissing(sample, used).value))
    ensures r.Success? && CharTotal(sample, used) > maxLength ==>
      AllPresent(sample, used) && IsFirstBest(encode, sample, used, maxLength, r.value + 1)
      && -1 <= r.value <= maxLength - 2
  {
    if CharTotal(sample, used) <= maxLength then Success(maxLength)
    else if maxLength <= 0 then Failure(EmptyArgmin)
    else
      match FirstMissing(sample, used)
      case Some(k) => Failure(MissingFeature(k))
      case None =>
        var ds := Deviations(encode, sample, used, maxLength);
        var th := ArgMin(ds).value;
        assert forall t :: 0 <= t < maxLength ==> ds[t] == Deviation(encode, sample, used, maxLength, t);
        Success(th - 1)
  }

  /** A sample whose used features fit the budget in characters is not cut at all. */
  lemma {:induction false} FeatureWithinCharTotal(sample: Sample, used: seq<string>, i: nat)
    requires i < |used| && used[i] in sample
    ensures |sample[used[i]]| <= CharTotal(sample, used)
  {
    if i < |used| - 1 {
      assert used[..|used| - 1][i] == used[i];
      FeatureWithinCharTotal(sample, used[..|used| - 1], i);
    }
  }

  // ---------------------------------------------------------------------------
  // Cutting a feature
  // ---------------------------------------------------------------------------

  /** Python's `tokens[:threshold]`: a negative threshold counts from the end. */
  function Prefix(tokens: seq<int>, threshold: int): (r: seq<int>)
    ensures |r| <= |tokens| && r == tokens[..|r|]
    ensures 0 <= threshold <= |tokens| ==> |r| == threshold
    ensures threshold >= |tokens| ==> r == tokens
    ensures threshold == -1 && |tokens| > 0 ==> r == tokens[..|tokens| - 1]
    ensures threshold < 0 ==> |r| == if |tokens| + threshold > 0 then |tokens| + threshold else 0
  {
    if threshold >= 0 then
      if threshold <= |tokens| then tokens[..threshold] else tokens
    else if |tokens| + threshold > 0 then tokens[..|tokens| + threshold]
    else []
  }

  /** The two halves of the tokenizer. */
  datatype Tokenizer = Tokenizer(encode: string -> seq<int>, decode: seq<int> -> string)

  /** `cut_feature`: keep the first `threshold` tokens of the feature. */
  function CutFeature(tok: Tokenizer, threshold: int, feature: string): string {
    tok.decode(Prefix(tok.encode(feature), threshold))
  }

  /**
   * When the used features fit the budget in characters, the threshold is
   * the budget itself, and a feature the tokenizer encodes losslessly into no
   * more tokens than it has characters passes uncut. The last two conditions
   * are asked of that one feature only: a byte-level tokenizer can give more
   * tokens than characters on other text.
   */
  lemma UncutWithinBudget(tok: Tokenizer, sample: Sample, maxLength: int, i: nat)
    requires CharTotal(sample, DefaultFeatures) <= maxLength
    requires i < |DefaultFeatures| && DefaultFeatures[i] in sample
    requires tok.decode(tok.encode(sample[DefaultFeatures[i]])) == sample[DefaultFeatures[i]]
    requires |tok.encode(sample[DefaultFeatures[i]])| <= |sample[DefaultFeatures[i]]|
    ensures CalculateBestThreshold(tok.encode, sample, maxLength, DefaultFeatures) == Success(maxLength)
    ensures CutFeature(tok, maxLength, sample[DefaultFeatures[i]]) == sample[DefaultFeatures[i]]
  {
    var f := sample[DefaultFeatures[i]];
    FeatureWithinCharTotal(sample, DefaultFeatures, i);
    assert |tok.encode(f)| <= |f|;
    assert Prefix(tok.encode(f), maxLength) == tok.encode(f);
    assert tok.decode(tok.encode(f)) == f;
  }

  // ---------------------------------------------------------------------------
  // The prompt
  // ---------------------------------------------------------------------------

  const Header: string :=
    "I present you some data about an italian process and you have to decide if the request is uphold or reject.\n\n"

  const Closing: string := "Is the proces rejected? respond with " + "true or false"

  /** A prompt section: the sample key it shows and the line introducing it. */
  datatype Section = Section(key: string, title: string)

  const FactSection := Section("fact", "The facts are:\n")
  const RequestSection := Section("req", "The request is:\n")
  const ArgumentSection := Section("arg", "The argumentation or additional info are:\n")
  const ClaimSection := Section("claim", "Other useful information are:\n")
  const MotivationSection := Section("mot", "The reason for the final decision are:\n")
  const DecisionSection := Section("dec", "The final decision is:\n")

  /** The sections in prompt order. */
  const PromptSections: seq<Section> :=
    [FactSection, RequestSection, ArgumentSection, ClaimSection, MotivationSection, DecisionSection]

  /** One section: its title, the cut feature and a blank line. */
  function SectionText(tok: Tokenizer, threshold: int, s: Section, feature: string): string {
    s.title + CutFeature(tok, threshold, feature) + "\n\n"
  }

  /** The sections, in table order, for the keys the sample holds. */
  function Body(tok: Tokenizer, sample: Sample, threshold: int, sections: seq<Section>): string {
    if |sections| == 0 then ""
    else
      Body(tok, sample, threshold, sections[..|sections| - 1]) +
        Part(tok, sample, threshold, sections[|sections| - 1])
  }

  function Prompt(tok: Tokenizer, sample: Sample, threshold: int): string {
    Header + Body(tok, sample, threshold, PromptSections) + Closing
  }

  /** What `write_prompt_for_sample` returns, or the error it raises. */
  function PromptFor(tok: Tokenizer, sample: Sample, maxLength: int): Result<string, ThresholdError> {
    match CalculateBestThreshold(tok.encode, sample, maxLength, DefaultFeatures)
    case Failure(e) => Failure(e)
    case Success(th) => Success(Prompt(tok, sample, th))
  }

  /** `write_prompt_for_sample`: the header, then one section per present key, then the question. */
  method WritePromptForSample(tok: Tokenizer, sample: Sample, maxLength: int := 2049)
    returns (r: Result<string, ThresholdError>)
    ensures r == PromptFor(tok, sample, maxLength)
  {
    var threshold := CalculateBestThreshold(tok.encode, sample, maxLength, DefaultFeatures);
    if threshold.Failure? {
      return Failure(threshold.error);
    }
    var th := threshold.value;
    var prompt := Header;
    ghost var before := prompt;
    if "fact" in sample {
      prompt := prompt + SectionText(tok, th, FactSection, sample["fact"]);
    }
    AppendPart(tok, sample, th, FactSection, before, prompt);
    before := prompt;
    if "req" in sample {
      prompt := prompt + SectionText(tok, th, RequestSection, sample["req"]);
    }
    AppendPart(tok, sample, th, RequestSection, before, prompt);
    before := prompt;
    if "arg" in sample {
      prompt := prompt + SectionText(tok, th, ArgumentSection, sample["arg"]);
    }
    AppendPart(tok, sample, th, ArgumentSection, before, prompt);
    before := prompt;
    if "claim" in sample {
      prompt := prompt + SectionText(tok, th, ClaimSection, sample["claim"]);
    }
    AppendPart(tok, sample, th, ClaimSection, before, prompt);
    before := prompt;
    if "mot" in sample {
      prompt := prompt + SectionText(tok, th, MotivationSection, sample["mot"]);
    }
    AppendPart(tok, sample, th, MotivationSection, before, prompt);
    before := prompt;
    if "dec" in sample {
      prompt := prompt + SectionText(tok, th, DecisionSection, sample["dec"]);
    }
    AppendPart(tok, sample, th, DecisionSection, before, prompt);
    prompt := prompt + Closing;
    PromptUnrolled(tok, sample, th);
    return Success(prompt);
  }

  /** A step of the assembly: the section is appended exactly when its key is present. */
  lemma AppendPart(tok: Tokenizer, sample: Sample, th: int, s: Section, before: string, after: string)
    requires s.key in sample ==> after == before + SectionText(tok, th, s, sample[s.key])
    requires s.key !in sample ==> after == before
    ensures after == before + Part(tok, sample, th, s)
  {
  }

  /** The prompt with its six table entries written out. */
  lemma PromptUnrolled(tok: Tokenizer, sample: Sample, th: int)
    ensures Prompt(tok, sample, th) == Header + Part(tok, sample, th, FactSection) + Part(tok, sample, th, RequestSection) + Part(tok, sample, th, ArgumentSection) + Part(tok, sample, th, ClaimSection) + Part(tok, sample, th, MotivationSection) + Part(tok, sample, th, DecisionSection) + Closing
  {
    BodyUnrolled(tok, sample, th);
    var ps := seq(6, i requires 0 <= i < 6 => Part(tok, sample, th, PromptSections[i]));
    Regroup(Header, ps[0], ps[1], ps[2], ps[3], ps[4], ps[5], Closing);
  }

  /** Concatenation regrouped: a header, six parts and a closing line. */
  lemma Regroup(h: string, p0: string, p1: string, p2: string, p3: string, p4: string, p5: string, c: string)
    ensures h + (p0 + p1 + p2 + p3 + p4 + p5) + c == h + p0 + p1 + p2 + p3 + p4 + p5 + c
  {
  }

  /** `Body` over the six table entries, written out. */
  lemma BodyUnrolled(tok: Tokenizer, sample: Sample, th: int)
    ensures Body(tok, sample, th, PromptSections) ==
      Part(tok, sample, th, FactSection) + Part(tok, sample, th, RequestSection) +
      Part(tok, sample, th, ArgumentSection) + Part(tok, sample, th, ClaimSection) +
      Part(tok, sample, th, MotivationSection) + Part(tok, sample, th, DecisionSection)
  {
    var ps := PromptSections;
    assert Body(tok, sample, th, ps[..0]) == "";
    assert ps[..1][..0] == ps[..0] && ps[..2][..1] == ps[..1] && ps[..3][..2] == ps[..2];
    assert ps[..4][..3] == ps[..3] && ps[..5][..4] == ps[..4] && ps[..6][..5] == ps[..5];
    assert ps[..6] == ps;
    assert Body(tok, sample, th, ps[..1]) == Part(tok, sample, th, ps[0]);
    assert Body(tok, sample, th, ps[..2]) == Body(tok, sample, th, ps[..1]) + Part(tok, sample, th, ps[1]);
    assert Body(tok, sample, th, ps[..3]) == Body(tok, sample, th, ps[..2]) + Part(tok, sample, th, ps[2]);
    assert Body(tok, sample, th, ps[..4]) == Body(tok, sample, th, ps[..3]) + Part(tok, sample, th, ps[3]);
    assert Body(tok, sample, th, ps[..5]) == Body(tok, sample, th, ps[..4]) + Part(tok, sample, th, ps[4]);
    assert Body(tok, sample, th, ps) == Body(tok, sample, th, ps[..5]) + Part(tok, sample, th, ps[5]);
  }

  /** What one table entry contributes. */
  function Part(tok: Tokenizer, sample: Sample, th: int, s: Section): string {
    if s.key in sample then SectionText(tok, th, s, sample[s.key]) else ""
  }

  /** The table lists exactly the default features, in the same order. */
  lemma SectionKeysAreDefaultFeatures()
    ensures |PromptSections| == |DefaultFeatures|
    ensures forall i :: 0 <= i < |PromptSections| ==> PromptSections[i].key == DefaultFeatures[i]
  {
  }

  /**
   * A completion that repeats the prompt is asked again, and, were it kept,
   * would read as a rejection.
   */
  lemma EchoedPromptIsRetried(tok: Tokenizer, sample: Sample, th: int, response: string)
    requires Occurs(Prompt(tok, sample, th), response)
    ensures RetryPrompt(response) && IsResponseRejected(response)
  {
    var p := Prompt(tok, sample, th);
    var lead := "Is the proces rejected? respond with ";
    OccursInside("true or false", lead, "");
    assert lead + "true or false" + "" == Closing;
    OccursInside(Closing, Header + Body(tok, sample, th, PromptSections), "");
    assert Header + Body(tok, sample, th, PromptSections) + Closing + "" == p;
    OccursTransitive("true or false", Closing, p);
    OccursTransitive("true or false", p, response);
    EchoedQuestionReadsAsRejected(response);
  }

  /**
   * The sections follow the table, not the sample: a sample holding only the
   * decision and the facts shows the facts first.
   */
  lemma SectionsFollowTableOrder(tok: Tokenizer, sample: Sample, th: int)
    requires sample.Keys == {"dec", "fact"}
    ensures Prompt(tok, sample, th) ==
      Header + SectionText(tok, th, FactSection, sample["fact"]) +
      SectionText(tok, th, DecisionSection, sample["dec"]) + Closing
  {
    PromptUnrolled(tok, sample, th);
    assert Part(tok, sample, th, RequestSection) == "" && Part(tok, sample, th, ArgumentSection) == "";
    assert Part(tok, sample, th, ClaimSection) == "" && Part(tok, sample, th, MotivationSection) == "";
    DropEmpty(Header, Part(tok, sample, th, FactSection), Part(tok, sample, th, DecisionSection), Closing);
  }

  lemma DropEmpty(h: string, a: string, b: string, c: string)
    ensures h + a + "" + "" + "" + "" + b + c == h + a + b + c
  {
  }

  lemma {:induction false} CharTotalIgnores(sample: Sample, used: seq<string>, k: string, v: string)
    requires k !in used
    ensures CharTotal(sample[k := v], used) == CharTotal(sample, used)
  {
    if |used| > 0 {
      CharTotalIgnores(sample, used[..|used| - 1], k, v);
    }
  }

  lemma {:induction false} TokenTotalIgnores(encode: string -> seq<int>, sample: Sample, used: seq<string>, th: nat, k: string, v: string)
    requires k !in used && AllPresent(sample, used)
    ensures AllPresent(sample[k := v], used)
    ensures TokenTotal(encode, sample[k := v], used, th) == TokenTotal(encode, sample, used, th)
  {
    if |used| > 0 {
      TokenTotalIgnores(encode, sample, used[..|used| - 1], th, k, v);
    }
  }

  /** A key the search does not use changes nothing in it. */
  lemma ThresholdIgnores(encode: string -> seq<int>, sample: Sample, maxLength: int, used: seq<string>, k: string, v: string)
    requires k !in used
    ensures CalculateBestThreshold(encode, sample[k := v], maxLength, used) ==
      CalculateBestThreshold(encode, sample, maxLength, used)
  {
    var s' := sample[k := v];
    CharTotalIgnores(sample, used, k, v);
    FirstMissingIgnores(sample, used, k, v);
    if CharTotal(sample, used) > maxLength && maxLength > 0 && AllPresent(sample, used) {
      forall t: nat ensures TokenTotal(encode, s', used, t) == TokenTotal(encode, sample, used, t) {
        TokenTotalIgnores(encode, sample, used, t, k, v);
      }
      assert Deviations(encode, s', used, maxLength) == Deviations(encode, sample, used, maxLength);
    }
  }

  /** A key no section shows changes nothing in the body. */
  lemma {:induction false} BodyIgnores(tok: Tokenizer, sample: Sample, th: int, sections: seq<Section>, k: string, v: string)
    requires forall i :: 0 <= i < |sections| ==> sections[i].key != k
    ensures Body(tok, sample[k := v], th, sections) == Body(tok, sample, th, sections)
  {
    if |sections| > 0 {
      BodyIgnores(tok, sample, th, sections[..|sections| - 1], k, v);
    }
  }

  /** Keys outside the table change neither the threshold nor the prompt. */
  lemma ExtraKeysIgnored(tok: Tokenizer, sample: Sample, maxLength: int, k: string, v: string)
    requires k !in DefaultFeatures
    ensures PromptFor(tok, sample[k := v], maxLength) == PromptFor(tok, sample, maxLength)
  {
    ThresholdIgnores(tok.encode, sample, maxLength, DefaultFeatures, k, v);
    SectionKeysAreDefaultFeatures();
    forall th: int ensures Body(tok, sample[k := v], th, PromptSections) == Body(tok, sample, th, PromptSections) {
      BodyIgnores(tok, sample, th, PromptSections, k, v);
    }
  }

  lemma {:induction false} FirstMissingIgnores(sample: Sample, used: seq<string>, k: string, v: string)
    requires k !in used
    ensures FirstMissing(sample[k := v], used) == FirstMissing(sample, used)
    decreases |used|
  {
    if |used| > 0 {
      assert used[0] != k;
      FirstMissingIgnores(sample, used[1..], k, v);
    }
  }
}
