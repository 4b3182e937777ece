/**
 * The generative-language client (`callGemini`) with its key rotation, and the
 * two operations built on it: language/subject analysis and reply generation.
 * The HTTP endpoint is an oracle `Network` from a request to its outcome.
 */
module Gemini {
  import opened Wrappers
  import opened Strings

  /** An API key, opaque to the client. */
  type Key = string

  /** The three prompts the orchestrator sends. */
  datatype Prompt =
    | LanguageQuery(message: string)
    | SubjectQuery(message: string)
    | ReplyQuery(message: string, tone: string, lang: string)
  {
    /** The prompt text placed in the request body. */
    function Text(): string {
      match this
      case LanguageQuery(message) =>
        "What language is this message written in? Reply only with the language name.\n\n\"\"\""
        + message + "\"\"\""
      case SubjectQuery(message) =>
        "Suggest a short, clean, professional subject line for replying to this message. Do not include quotes or symbols.\n\n\""
        + message + "\""
      case ReplyQuery(message, tone, lang) =>
        ReplyHead + lang + ReplyAfterLang + lang + ReplyBeforeTone + tone + ReplyBeforeMessage + message + "\"\"\"\n"
    }
  }

  const ReplyHead := "\nYou are a smart and helpful assistant. Read the message below and write a short, intelligent reply in the language: "
  const ReplyAfterLang := ".\n\nInstructions:\n- Reply in "
  const ReplyBeforeTone := " only (no English if input is in another language)\n- Tone should be "
  const ReplyBeforeMessage := " (formal or casual)\n- Keep it brief (2–4 lines max), human-like, and to the point\n- Avoid robotic or repetitive phrases\n- Do NOT translate or explain\n- Do NOT include \"Reply:\" in the response\n\nMessage:\n\"\"\""

  /** Every prompt quotes the message verbatim; the reply prompt also names
      the tone and the language. */
  lemma PromptQuotes(p: Prompt)
    ensures Includes(p.Text(), p.message)
    ensures p.ReplyQuery? ==> Includes(p.Text(), p.tone) && Includes(p.Text(), p.lang)
  {
    match p
    case LanguageQuery(message) =>
      var before := "What language is this message written in? Reply only with the language name.\n\n\"\"\"";
      IncludesSuffix(before, message);
      IncludesExtend(before + message, "\"\"\"", message);
    case SubjectQuery(message) =>
      var before := "Suggest a short, clean, professional subject line for replying to this message. Do not include quotes or symbols.\n\n\"";
      IncludesSuffix(before, message);
      IncludesExtend(before + message, "\"", message);
    case ReplyQuery(message, tone, lang) =>
      TemplateIncludes(ReplyHead, ReplyAfterLang, ReplyBeforeTone, ReplyBeforeMessage, "\"\"\"\n", message, tone, lang);
  }

  /** Each value filled into a template of the reply prompt's shape is
      included in the result. */
  lemma TemplateIncludes(head: string, mid1: string, mid2: string, tail: string, end: string,
                         message: string, tone: string, lang: string)
    ensures var p := head + lang + mid1 + lang + mid2 + tone + tail + message + end;
      Includes(p, message) && Includes(p, tone) && Includes(p, lang)
  {
    IncludesSuffix(head + lang + mid1 + lang + mid2 + tone + tail, message);
    IncludesExtend(head + lang + mid1 + lang + mid2 + tone + tail + message, end, message);
    IncludesSuffix(head + lang + mid1 + lang + mid2, tone);
    IncludesExtend(head + lang + mid1 + lang + mid2 + tone, tail, tone);
    IncludesExtend(head + lang + mid1 + lang + mid2 + tone + tail, message, tone);
    IncludesExtend(head + lang + mid1 + lang + mid2 + tone + tail + message, end, tone);
    IncludesSuffix(head, lang);
    IncludesExtend(head + lang, mid1, lang);
    IncludesExtend(head + lang + mid1, lang, lang);
    IncludesExtend(head + lang + mid1 + lang, mid2, lang);
    IncludesExtend(head + lang + mid1 + lang + mid2, tone, lang);
    IncludesExtend(head + lang + mid1 + lang + mid2 + tone, tail, lang);
    IncludesExtend(head + lang + mid1 + lang + mid2 + tone + tail, message, lang);
    IncludesExtend(head + lang + mid1 + lang + mid2 + tone + tail + message, end, lang);
  }

  /** What one attempt sends: the prompt, the key, and the attempt's position in
      the key list (so the oracle may answer differently on each attempt). */
  datatype Request = Request(prompt: Prompt, key: Key, attempt: nat)

  /** What one attempt observes once `fetch` and `res.json()` have run:
      either one of them threw, or a response with its HTTP status, its `ok`
      flag, `error.message`, `statusText`, and the text of the first part of
      each candidate (`None` where that property is missing). */
  datatype Outcome =
    | Throw
    | Resp(status: int, ok: bool, errMsg: Option<string>, statusText: string,
           candidates: seq<Option<string>>)

  type Network = Request -> Outcome

  /** Every error string the client returns starts with this marker. */
  const ErrorMarker := "❌ "
  const ErrorPrefix := ErrorMarker + "Gemini error: "
  const EmptyContent := ErrorMarker + "Gemini returned empty content."
  const Exhausted := ErrorMarker + "All Gemini API keys failed. Please try again later."

  /** `data?.error?.message || res.statusText`: a missing or empty message
      falls back to the status text. */
  function ErrorMessage(errMsg: Option<string>, statusText: string): (m: string)
    ensures errMsg == None || errMsg.value == "" ==> m == statusText
    ensures errMsg.Some? && errMsg.value != "" ==> m == errMsg.value
    ensures m == "" ==> statusText == ""
  {
    if errMsg.Some? && errMsg.value != "" then errMsg.value else statusText
  }

  /** Rate limiting: status 429, or "quota" anywhere in the message, in any case. */
  predicate IsQuota(status: int, message: string) {
    status == 429 || Includes(ToLower(message), "quota")
  }

  /** The five ways an attempt can end. */
  datatype Verdict =
    | Transport                 // fetch or JSON parsing threw
    | Quota(message: string)    // rate limited: try the next key
    | Hard(message: string)     // any other failure: give up
    | Empty                     // success without usable text
    | Text(text: string)        // success: the trimmed text
  {
    /** Only transport failures and quota failures move on to the next key. */
    predicate Rotates() {
      Transport? || Quota?
    }

    /** The string the client returns when this attempt ends the call. */
    function Reply(): (r: string)
      requires !Rotates()
    {
      match this
      case Hard(m) => ErrorPrefix + m
      case Empty => EmptyContent
      case Text(t) => t
    }
  }

  /** Sorts one attempt's outcome into its verdict. */
  function Classify(o: Outcome): Verdict {
    match o
    case Throw => Transport
    case Resp(status, ok, errMsg, statusText, candidates) =>
      if !ok || |candidates| == 0 then
        var m := ErrorMessage(errMsg, statusText);
        if IsQuota(status, m) then Quota(m) else Hard(m)
      else
        var text := if candidates[0].Some? then Trim(candidates[0].value) else "";
        if text == "" then Empty else Text(text)
  }

  /** A response the client treats as a quota failure. */
  predicate IsQuotaFailure(o: Outcome) {
    o.Resp? && (!o.ok || |o.candidates| == 0) && IsQuota(o.status, ErrorMessage(o.errMsg, o.statusText))
  }

  /** An outcome after which the client moves on to the next key. */
  predicate Transient(o: Outcome) {
    o.Throw? || IsQuotaFailure(o)
  }

  /** Exactly the throws and the quota failures rotate. */
  lemma RotatesIffTransient(o: Outcome)
    ensures Classify(o).Rotates() <==> Transient(o)
  {
  }

  /** How a call ends: the string returned and how many keys were attempted
      (always the keys `0 .. attempts - 1`). */
  datatype Completion = Completion(reply: string, attempts: nat)

  /** The verdict each key would get if it were tried. */
  function Verdicts(keys: seq<Key>, prompt: Prompt, net: Network): (vs: seq<Verdict>)
    ensures |vs| == |keys|
    ensures forall j :: 0 <= j < |keys| ==> vs[j] == Classify(net(Request(prompt, keys[j], j)))
  {
    seq(|keys|, j requires 0 <= j < |keys| => Classify(net(Request(prompt, keys[j], j))))
  }

  /** The rotation over the verdicts from position `i` on. */
  function SettleFrom(vs: seq<Verdict>, i: nat): (c: Completion)
    requires i <= |vs|
    ensures i <= c.attempts <= |vs|
    ensures i < |vs| ==> i < c.attempts
    decreases |vs| - i
  {
    if i == |vs| then Completion(Exhausted, i)
    else if vs[i].Rotates() then SettleFrom(vs, i + 1)
    else Completion(vs[i].Reply(), i + 1)
  }

  /** The reference definition of one call of the client. */
  function Complete(keys: seq<Key>, prompt: Prompt, net: Network): Completion {
    SettleFrom(Verdicts(keys, prompt, net), 0)
  }

  /** The rotation rule: `reply` and `k` attempts are a possible end of a call
      with verdicts `vs` exactly when every attempt but the last rotated, and
      either the last one stopped the call and gave `reply`, or every key
      rotated and `reply` is the exhaustion sentinel. */
  ghost predicate Settles(vs: seq<Verdict>, reply: string, k: nat) {
    && k <= |vs|
    && (forall j :: 0 <= j < k - 1 ==> vs[j].Rotates())
    && if 0 < k && !vs[k - 1].Rotates()
       then reply == vs[k - 1].Reply()
       else k == |vs| && reply == Exhausted
  }

  /** The rotation rule determines how a call ends. */
  lemma SettlesUnique(vs: seq<Verdict>, r1: string, k1: nat, r2: string, k2: nat)
    requires Settles(vs, r1, k1) && Settles(vs, r2, k2)
    ensures r1 == r2 && k1 == k2
  {
  }

  /** The reference definition obeys the rotation rule. */
  lemma {:induction false} SettleFromObeysRule(vs: seq<Verdict>, i: nat)
    requires i <= |vs|
    requires forall j :: 0 <= j < i ==> vs[j].Rotates()
    ensures Settles(vs, SettleFrom(vs, i).reply, SettleFrom(vs, i).attempts)
    decreases |vs| - i
  {
    if i < |vs| && vs[i].Rotates() {
      SettleFromObeysRule(vs, i + 1);
    }
  }

  /** Verdicts that all rotate are skipped: the call continues as from the
      first key after them. */
  lemma {:induction false} SkipRotating(vs: seq<Verdict>, i: nat, k: nat)
    requires i <= k <= |vs|
    requires forall j :: i <= j < k ==> vs[j].Rotates()
    ensures SettleFrom(vs, i) == SettleFrom(vs, k)
    decreases k - i
  {
    if i < k {
      SkipRotating(vs, i + 1, k);
    }
  }

  /** A call whose first non-rotating verdict is at `i` stops there with that
      verdict's reply. */
  lemma StopsAt(vs: seq<Verdict>, i: nat)
    requires i < |vs|
    requires forall j :: 0 <= j < i ==> vs[j].Rotates()
    requires !vs[i].Rotates()
    ensures SettleFrom(vs, 0) == Completion(vs[i].Reply(), i + 1)
    ensures Settles(vs, vs[i].Reply(), i + 1)
  {
    SkipRotating(vs, 0, i);
  }

  /** A call in which every verdict rotates returns the exhaustion sentinel
      after trying every key. */
  lemma ExhaustsAll(vs: seq<Verdict>)
    requires forall j :: 0 <= j < |vs| ==> vs[j].Rotates()
    ensures SettleFrom(vs, 0) == Completion(Exhausted, |vs|)
    ensures Settles(vs, Exhausted, |vs|)
  {
    SkipRotating(vs, 0, |vs|);
  }

  /** `callGemini`: try the keys in order, moving on after a throw or a quota
      failure, and return at the first other outcome. */
  method CallGemini(keys: seq<Key>, prompt: Prompt, net: Network) returns (reply: string, attempted: seq<nat>)
    ensures forall j :: 0 <= j < |attempted| ==> attempted[j] == j
    ensures Settles(Verdicts(keys, prompt, net), reply, |attempted|)
    ensures Complete(keys, prompt, net) == Completion(reply, |attempted|)
    ensures reply != ""
  {
    ghost var vs := Verdicts(keys, prompt, net);
    attempted := [];
    for i := 0 to |keys|
      invariant |attempted| == i
      invariant forall j :: 0 <= j < i ==> attempted[j] == j
      invariant forall j :: 0 <= j < i ==> vs[j].Rotates()
    {
      attempted := attempted + [i];
      var res := net(Request(prompt, keys[i], i));
      assert vs[i] == Classify(res);
      if res.Throw? {
        continue;
      }
      if !res.ok || |res.candidates| == 0 {
        var errMsg := ErrorMessage(res.errMsg, res.statusText);
        if res.status == 429 || Includes(ToLower(errMsg), "quota") {
          continue;
        }
        reply := ErrorPrefix + errMsg;
        assert vs[i] == Hard(errMsg);
        StopsAt(vs, i);
        return;
      }
      var text := if res.candidates[0].Some? then Trim(res.candidates[0].value) else "";
      reply := if text != "" then text else EmptyContent;
      assert vs[i] == if text != "" then Text(text) else Empty;
      StopsAt(vs, i);
      return;
    }
    reply := Exhausted;
    ExhaustsAll(vs);
  }

  /** If every key fails with a quota error or a throw, the call returns the
      exhaustion sentinel after trying all of them. */
  lemma AllKeysFail(keys: seq<Key>, prompt: Prompt, net: Network)
    requires forall j :: 0 <= j < |keys| ==> Transient(net(Request(prompt, keys[j], j)))
    ensures Complete(keys, prompt, net) == Completion(Exhausted, |keys|)
  {
    TransientsRotate(keys, prompt, net, |keys|);
    ExhaustsAll(Verdicts(keys, prompt, net));
  }

  /** Keys whose outcomes are transient have rotating verdicts. */
  lemma TransientsRotate(keys: seq<Key>, prompt: Prompt, net: Network, k: nat)
    requires k <= |keys|
    requires forall j :: 0 <= j < k ==> Transient(net(Request(prompt, keys[j], j)))
    ensures forall j :: 0 <= j < k ==> Verdicts(keys, prompt, net)[j].Rotates()
  {
    var vs := Verdicts(keys, prompt, net);
    forall j | 0 <= j < k
      ensures vs[j].Rotates()
    {
      RotatesIffTransient(net(Request(prompt, keys[j], j)));
    }
  }

  /** If keys 1 .. N-1 fail with quota errors and key N answers with text,
      the call returns that text, trimmed, after exactly N attempts. */
  lemma QuotaThenSuccess(keys: seq<Key>, prompt: Prompt, net: Network, text: string)
    requires |keys| >= 1
    requires forall j :: 0 <= j < |keys| - 1 ==> IsQuotaFailure(net(Request(prompt, keys[j], j)))
    requires var o := net(Request(prompt, keys[|keys| - 1], |keys| - 1));
      o.Resp? && o.ok && |o.candidates| > 0 && o.candidates[0] == Some(text)
    requires Trim(text) != ""
    ensures Complete(keys, prompt, net) == Completion(Trim(text), |keys|)
  {
    var vs := Verdicts(keys, prompt, net);
    TransientsRotate(keys, prompt, net, |keys| - 1);
    assert vs[|keys| - 1] == Text(Trim(text));
    StopsAt(vs, |keys| - 1);
  }

  /** A failure that is not a quota failure, at any key, ends the call there
      with the formatted error: no later key is attempted. */
  lemma HardErrorStops(keys: seq<Key>, prompt: Prompt, net: Network, k: nat)
    requires k < |keys|
    requires forall j :: 0 <= j < k ==> Transient(net(Request(prompt, keys[j], j)))
    requires var o := net(Request(prompt, keys[k], k));
      o.Resp? && (!o.ok || |o.candidates| == 0) && !IsQuota(o.status, ErrorMessage(o.errMsg, o.statusText))
    ensures var o := net(Request(prompt, keys[k], k));
      Complete(keys, prompt, net) == Completion(ErrorPrefix + ErrorMessage(o.errMsg, o.statusText), k + 1)
  {
    var vs := Verdicts(keys, prompt, net);
    TransientsRotate(keys, prompt, net, k);
    StopsAt(vs, k);
  }

  /** A successful response at any key ends the call there, with its trimmed
      text or, when that is missing or blank, the empty-content sentinel. */
  lemma SuccessStops(keys: seq<Key>, prompt: Prompt, net: Network, k: nat)
    requires k < |keys|
    requires forall j :: 0 <= j < k ==> Transient(net(Request(prompt, keys[j], j)))
    requires var o := net(Request(prompt, keys[k], k)); o.Resp? && o.ok && |o.candidates| > 0
    ensures var o := net(Request(prompt, keys[k], k));
      var text := if o.candidates[0].Some? then Trim(o.candidates[0].value) else "";
      Complete(keys, prompt, net) == Completion(if text != "" then text else EmptyContent, k + 1)
  {
    var vs := Verdicts(keys, prompt, net);
    TransientsRotate(keys, prompt, net, k);
    StopsAt(vs, k);
  }

  // ----- analyzeLanguageAndSubject -----

  /** The characters the subject cleanup deletes: `/[*"'.]/g`. */
  predicate IsSubjectNoise(c: char) {
    c == '*' || c == '"' || c == '\'' || c == '.'
  }

  /** The subject with every noise character deleted. */
  function StripNoise(s: string): (r: string)
    ensures |r| <= |s|
    ensures forall j :: 0 <= j < |r| ==> !IsSubjectNoise(r[j])
    ensures (forall j :: 0 <= j < |s| ==> !IsSubjectNoise(s[j])) ==> r == s
  {
    if s == [] then []
    else (if IsSubjectNoise(s[0]) then [] else [s[0]]) + StripNoise(s[1..])
  }

  /** Deleting noise works piece by piece, keeping the order of what is left. */
  lemma {:induction false} StripNoiseAppend(a: string, b: string)
    ensures StripNoise(a + b) == StripNoise(a) + StripNoise(b)
  {
    if a == [] {
      assert a + b == b;
    } else {
      assert (a + b)[0] == a[0];
      assert (a + b)[1..] == a[1..] + b;
      StripNoiseAppend(a[1..], b);
    }
  }

  /** Deleting noise keeps every other character as often as it occurs. */
  lemma {:induction false} StripNoiseKeepsText(s: string, c: char)
    requires !IsSubjectNoise(c)
    ensures multiset(StripNoise(s))[c] == multiset(s)[c]
  {
    if s != [] {
      assert s == [s[0]] + s[1..];
      StripNoiseKeepsText(s[1..], c);
    }
  }

  const SubjectMaxLength := 50

  /** `subject.replace(/[*"'.]/g, '').trim().slice(0, 50)`. */
  function CleanSubject(subject: string): (r: string)
    ensures |r| <= SubjectMaxLength
    ensures forall j :: 0 <= j < |r| ==> !IsSubjectNoise(r[j])
    ensures r == [] || !IsWhitespace(r[0])
    ensures r <= Trim(StripNoise(subject))
    ensures |r| == Min(|Trim(StripNoise(subject))|, SubjectMaxLength)
  {
    Take(Trim(StripNoise(subject)), SubjectMaxLength)
  }

  /** A subject without noise characters, without surrounding whitespace and at
      most 50 characters long comes back unchanged. */
  lemma CleanSubjectKeepsClean(s: string)
    requires forall j :: 0 <= j < |s| ==> !IsSubjectNoise(s[j])
    requires Trimmed(s)
    requires |s| <= SubjectMaxLength
    ensures CleanSubject(s) == s
  {
  }

  /** A noise character anywhere, such as a final period, does not change the
      cleaned subject. */
  lemma CleanSubjectIgnoresNoise(a: string, c: char, b: string)
    requires IsSubjectNoise(c)
    ensures CleanSubject(a + [c] + b) == CleanSubject(a + b)
  {
    StripNoiseAppend(a + [c], b);
    StripNoiseAppend(a, [c]);
    StripNoiseAppend(a, b);
    assert StripNoise([c]) == [] by {
      assert [c][1..] == [];
    }
    assert StripNoise(a + [c]) == StripNoise(a);
    assert StripNoise(a + [c] + b) == StripNoise(a + b);
  }

  /** Cleaning twice only trims what the first truncation left at the end. */
  lemma CleanSubjectTwice(s: string)
    ensures CleanSubject(CleanSubject(s)) == Trim(CleanSubject(s))
  {
  }

  /** Cleaning is not idempotent: a space that truncation leaves last is
      trimmed by a second cleaning. */
  lemma CleanSubjectNotIdempotent()
    ensures var s := seq(49, _ => 'a') + " b";
      CleanSubject(CleanSubject(s)) != CleanSubject(s)
  {
    var s := seq(49, _ => 'a') + " b";
    assert Trimmed(s);
    var c := CleanSubject(s);
    assert c == s[..50];
    assert c[49] == ' ';
    CleanSubjectTwice(s);
    assert !Trimmed(c);
  }

  /** The sentinels have no surrounding whitespace, so trimming keeps them. */
  lemma SentinelsTrimmed()
    ensures Trimmed(Exhausted) && Trimmed(EmptyContent)
  {
    assert Exhausted[0] == ErrorMarker[0];
    assert EmptyContent[0] == ErrorMarker[0];
  }

  /** The outcome of an awaited call: its string, or an exception. */
  datatype Settled = Fulfilled(value: string) | Rejected

  /** The detected language and the suggested subject line. */
  datatype Analysis = Analysis(language: string, subject: string)

  const Fallback := Analysis("English", "")

  /** The result `analyzeLanguageAndSubject` builds from its two calls: the
      trimmed language and the cleaned subject, or the fallback when either
      call raised. */
  function AnalysisOf(language: Settled, subject: Settled): (a: Analysis)
    ensures |a.subject| <= SubjectMaxLength
    ensures forall j :: 0 <= j < |a.subject| ==> !IsSubjectNoise(a.subject[j])
    ensures Trimmed(a.language)
    ensures language.Rejected? || subject.Rejected? ==> a == Fallback
  {
    if language.Rejected? || subject.Rejected? then Fallback
    else Analysis(Trim(language.value), CleanSubject(subject.value))
  }

  /** The analysis one user action gets from the network. */
  function AnalysisFor(keys: seq<Key>, net: Network, message: string): Analysis {
    AnalysisOf(Fulfilled(Complete(keys, LanguageQuery(message), net).reply),
               Fulfilled(Complete(keys, SubjectQuery(message), net).reply))
  }

  /** A verdict that ends the call gives a reply whose first character is not
      whitespace. */
  predicate EndsVisibly(v: Verdict) {
    v.Rotates() || StartsVisible(v.Reply())
  }

  /** Every outcome the client can observe gets such a verdict. */
  lemma ClassifyEndsVisibly(o: Outcome)
    ensures EndsVisibly(Classify(o))
  {
    match Classify(o)
    case Hard(m) =>
      assert (ErrorPrefix + m)[0] == ErrorMarker[0];
    case Empty =>
      assert EmptyContent[0] == ErrorMarker[0];
    case Text(t) =>
    case _ =>
  }

  /** A call over verdicts that all end visibly returns such a reply, the
      exhaustion sentinel included. */
  lemma {:induction false} SettleFromVisible(vs: seq<Verdict>, i: nat)
    requires i <= |vs|
    requires forall j :: i <= j < |vs| ==> EndsVisibly(vs[j])
    ensures StartsVisible(SettleFrom(vs, i).reply)
    decreases |vs| - i
  {
    if i == |vs| {
      assert Exhausted[0] == ErrorMarker[0];
    } else if vs[i].Rotates() {
      SettleFromVisible(vs, i + 1);
    }
  }

  /** Whatever the network does, the client's string starts with a character
      that is not whitespace. */
  lemma ReplyStartsVisible(keys: seq<Key>, prompt: Prompt, net: Network)
    ensures StartsVisible(Complete(keys, prompt, net).reply)
  {
    var vs := Verdicts(keys, prompt, net);
    forall j | 0 <= j < |vs|
      ensures EndsVisibly(vs[j])
    {
      ClassifyEndsVisibly(net(Request(prompt, keys[j], j)));
    }
    SettleFromVisible(vs, 0);
  }

  /** Whatever the network does, the detected language is never empty, so the
      page always shows the language line after an analysis. */
  lemma AnalysisLanguageShown(keys: seq<Key>, net: Network, message: string)
    ensures AnalysisFor(keys, net, message).language != ""
  {
    var r := Complete(keys, LanguageQuery(message), net).reply;
    ReplyStartsVisible(keys, LanguageQuery(message), net);
    TrimVisible(r);
    assert AnalysisFor(keys, net, message).language == Trim(r);
  }

  /** `analyzeLanguageAndSubject`: the two calls are independent, so running
      them one after the other gives what `Promise.all` gives. The client never
      raises, so the result is never the fallback. */
  method AnalyzeLanguageAndSubject(keys: seq<Key>, net: Network, message: string) returns (a: Analysis)
    ensures a == AnalysisFor(keys, net, message)
  {
    var language, _ := CallGemini(keys, LanguageQuery(message), net);
    var subject, _ := CallGemini(keys, SubjectQuery(message), net);
    a := AnalysisOf(Fulfilled(language), Fulfilled(subject));
  }

  /** When every key fails for the language call, the analysis reports the
      exhaustion sentinel as the language rather than falling back to English. */
  lemma AnalysisKeepsSentinel(keys: seq<Key>, net: Network, message: string)
    requires forall j :: 0 <= j < |keys| ==> Transient(net(Request(LanguageQuery(message), keys[j], j)))
    ensures AnalysisFor(keys, net, message).language == Exhausted
  {
    var prompt := LanguageQuery(message);
    assert Complete(keys, prompt, net).reply == Exhausted by {
      AllKeysFail(keys, prompt, net);
    }
    assert Trim(Exhausted) == Exhausted by {
      SentinelsTrimmed();
    }
    assert AnalysisFor(keys, net, message).language == Trim(Complete(keys, prompt, net).reply);
  }

  // ----- generateSmartReply -----

  /** `generateSmartReply`: one call of the client, whose string, error
      sentinels included, is returned as it is. */
  method GenerateSmartReply(keys: seq<Key>, net: Network, message: string, tone: string, lang: string) returns (reply: string)
    ensures reply == Complete(keys, ReplyQuery(message, tone, lang), net).reply
    ensures reply != ""
  {
    var prompt := ReplyQuery(message, tone, lang);
    var attempted;
    reply, attempted := CallGemini(keys, prompt, net);
  }
}
