/**
 * The page's state and the handlers that change it: the typewriter reveal of
 * a reply, the generate action with its blank-message guard, clearing, and the
 * teardown of the reveal timer when the page goes away.
 */
module App {
  import opened Wrappers
  import opened Strings
  import opened Gemini

  const Warning := "⚠ Please enter a message."
  const Generating := "Generating..."

  /** What a reveal of `text` has published after `n` ticks: the prefixes of
      `text` of lengths 1 to `n`, in order. */
  function Reveal(text: string, n: nat): (r: seq<string>)
    requires n <= |text|
    ensures |r| == n
  {
    if n == 0 then [] else Reveal(text, n - 1) + [text[..n]]
  }

  /** The `k`-th value published is the prefix of length `k + 1`. */
  lemma {:induction false} RevealPrefixes(text: string, n: nat)
    requires n <= |text|
    ensures forall k :: 0 <= k < n ==> Reveal(text, n)[k] == text[..k + 1]
  {
    if n > 0 {
      RevealPrefixes(text, n - 1);
    }
  }

  /** Each published value extends the previous one by exactly one character,
      and the last one of a finished reveal is the whole text. */
  lemma RevealGrowsByOne(text: string, n: nat)
    requires n <= |text|
    ensures forall k :: 0 < k < n ==> Reveal(text, n)[k] == Reveal(text, n)[k - 1] + [text[k]]
    ensures 0 < |text| ==> Reveal(text, |text|)[|text| - 1] == text
  {
    RevealPrefixes(text, n);
    RevealPrefixes(text, |text|);
    forall k | 0 < k < n
      ensures Reveal(text, n)[k] == Reveal(text, n)[k - 1] + [text[k]]
    {
      assert text[..k + 1] == text[..k] + [text[k]];
    }
    assert text[..|text|] == text;
  }

  class App {
    // React state
    var message: string
    var reply: string
    var tone: string
    var meta: Analysis
    var loading: bool

    // `intervalRef.current`: the handle of the latest reveal timer; it keeps
    // its value after the timer is cleared
    var intervalRef: Option<nat>
    // the timers that are scheduled and not cleared
    var live: set<nat>
    // the handle the next `setInterval` returns (handles are positive)
    var nextHandle: nat

    // the closure of the latest reveal: its text, cursor and accumulator
    var text: string
    var i: nat
    var typed: string

    /** At most one timer is live and it is the one `intervalRef` holds; the
        accumulator is the prefix of the text the cursor has reached. */
    ghost predicate Valid()
      reads this`nextHandle, this`intervalRef, this`live, this`i, this`text, this`typed
    {
      && 1 <= nextHandle
      && (intervalRef.Some? ==> 1 <= intervalRef.value < nextHandle)
      && (live == {} || (intervalRef.Some? && live == {intervalRef.value}))
      && i <= |text|
      && typed == text[..i]
    }

    /** A reveal timer is running. */
    ghost predicate Active()
      reads this
    {
      live != {}
    }

    /** What the running reveal has published so far. */
    ghost function Published(): seq<string>
      reads this
      requires Valid()
    {
      Reveal(text, i)
    }

    constructor ()
      ensures Valid() && !Active()
      ensures message == "" && reply == "" && tone == "formal" && meta == Analysis("", "") && !loading
      ensures intervalRef == None
    {
      message, reply, tone, meta, loading := "", "", "formal", Analysis("", ""), false;
      intervalRef, live, nextHandle := None, {}, 1;
      text, i, typed := "", 0, "";
    }

    /** `typeWriterEffect(text)`: cancel the running reveal, if any, and
        schedule a new one at the start of `t`. */
    method TypeWriterEffect(t: string)
      requires Valid()
      modifies this
      ensures Valid() && Active()
      ensures intervalRef == Some(old(nextHandle)) && live == {old(nextHandle)}
      ensures old(intervalRef).Some? ==> old(intervalRef).value !in live
      ensures nextHandle == old(nextHandle) + 1
      ensures text == t && i == 0 && typed == "" && Published() == []
      ensures reply == old(reply) && message == old(message) && tone == old(tone)
      ensures meta == old(meta) && loading == old(loading)
    {
      if intervalRef.Some? {
        live := live - {intervalRef.value};
      }
      text, i, typed := t, 0, "";
      intervalRef := Some(nextHandle);
      live := {nextHandle};
      nextHandle := nextHandle + 1;
    }

    /** One firing of the reveal timer. While the cursor is inside the text it
        appends one character and publishes the prefix; at the end it clears
        its own timer. A cleared timer never fires, so then nothing happens. */
    method Tick()
      requires Valid()
      modifies this
      ensures Valid()
      ensures old(Active()) && old(i) < |text| ==>
        && i == old(i) + 1 && typed == text[..i] && reply == typed
        && Published() == old(Published()) + [reply]
        && live == old(live)
      ensures old(Active()) && old(i) == |text| ==>
        && !Active() && i == old(i) && reply == old(reply)
      ensures !old(Active()) ==> i == old(i) && reply == old(reply) && live == old(live)
      ensures text == old(text) && intervalRef == old(intervalRef) && nextHandle == old(nextHandle)
      ensures message == old(message) && tone == old(tone) && meta == old(meta) && loading == old(loading)
    {
      if live == {} {
        return;
      }
      if i < |text| {
        typed := typed + [text[i]];
        reply := typed;
        i := i + 1;
        assert typed == text[..i];
      } else {
        live := live - {intervalRef.value};
      }
    }

    /** The synchronous part of `handleGenerate`, up to its first `await`: a
        blank message (after trimming) only shows the warning; otherwise
        loading starts, the reply shows the progress text and the metadata is
        reset. A running reveal is not touched and goes on ticking. */
    method HandleGenerate() returns (started: bool)
      requires Valid()
      modifies this
      ensures Valid()
      ensures started <==> Trim(message) != ""
      ensures !started ==> reply == Warning && meta == old(meta) && loading == old(loading)
      ensures started ==> reply == Generating && meta == Analysis("", "") && loading
      ensures message == old(message) && tone == old(tone)
      ensures live == old(live) && intervalRef == old(intervalRef) && nextHandle == old(nextHandle)
      ensures text == old(text) && i == old(i) && typed == old(typed)
    {
      if Trim(message) == "" {
        reply := Warning;
        return false;
      }
      loading := true;
      reply := Generating;
      meta := Analysis("", "");
      return true;
    }

    /** `setMeta` once the analysis has resolved. */
    method ReceiveAnalysis(a: Analysis)
      requires Valid()
      modifies this
      ensures Valid()
      ensures meta == a
      ensures reply == old(reply) && message == old(message) && tone == old(tone) && loading == old(loading)
      ensures live == old(live) && intervalRef == old(intervalRef) && nextHandle == old(nextHandle)
      ensures text == old(text) && i == old(i) && typed == old(typed)
    {
      meta := a;
    }

    /** Once the reply has resolved: its reveal starts, then `finally` ends
        loading. */
    method ReceiveReply(smartReply: string)
      requires Valid()
      modifies this
      ensures Valid() && Active() && !loading
      ensures intervalRef == Some(old(nextHandle)) && live == {old(nextHandle)}
      ensures old(intervalRef).Some? ==> old(intervalRef).value !in live
      ensures text == smartReply && i == 0 && Published() == []
      ensures reply == old(reply) && message == old(message) && tone == old(tone) && meta == old(meta)
    {
      TypeWriterEffect(smartReply);
      loading := false;
    }

    /** One click of Generate against the network, while the reveal timer fires
        `early` times before the analysis resolves and `late` times before the
        reply resolves. The handler works on the message and tone of the click.
        The progress text stays only when no reveal was running: a running one
        goes on publishing its own prefixes until the new reveal replaces it. */
    method Generate(keys: seq<Key>, net: Network, early: nat, late: nat)
      requires Valid()
      modifies this
      ensures Valid()
      ensures Trim(old(message)) == "" ==>
        && reply == Warning && meta == old(meta) && loading == old(loading)
        && live == old(live) && intervalRef == old(intervalRef)
        && text == old(text) && i == old(i)
      ensures Trim(old(message)) != "" ==>
        && meta == AnalysisFor(keys, net, old(message))
        && text == Complete(keys, ReplyQuery(old(message), old(tone), meta.language), net).reply
        && i == 0 && Published() == [] && Active() && !loading
      ensures Trim(old(message)) != "" && !old(Active()) ==> reply == Generating
      ensures message == old(message) && tone == old(tone)
    {
      var started := HandleGenerate();
      if !started {
        return;
      }
      var msg, t := message, tone;
      for k := 0 to early
        invariant Valid() && message == msg && tone == t && loading
        invariant !old(Active()) ==> !Active() && reply == Generating
      {
        Tick();
      }
      var analysis := AnalyzeLanguageAndSubject(keys, net, msg);
      ReceiveAnalysis(analysis);
      for k := 0 to late
        invariant Valid() && message == msg && tone == t && meta == analysis
        invariant !old(Active()) ==> !Active() && reply == Generating
      {
        Tick();
      }
      var smartReply := GenerateSmartReply(keys, net, msg, t, analysis.language);
      ReceiveReply(smartReply);
    }

    /** `handleClear`: empty both the reply and the message. A running reveal
        is not cancelled. */
    method HandleClear()
      requires Valid()
      modifies this
      ensures Valid()
      ensures reply == "" && message == ""
      ensures tone == old(tone) && meta == old(meta) && loading == old(loading) && intervalRef == old(intervalRef)
      ensures live == old(live) && text == old(text) && i == old(i)
    {
      reply := "";
      message := "";
    }

    /** Typing into the message box. */
    method EditMessage(m: string)
      requires Valid()
      modifies this
      ensures Valid()
      ensures message == m && reply == old(reply) && tone == old(tone)
      ensures meta == old(meta) && loading == old(loading) && intervalRef == old(intervalRef)
      ensures live == old(live) && text == old(text) && i == old(i)
    {
      message := m;
    }

    /** Choosing a tone. */
    method SelectTone(t: string)
      requires Valid()
      modifies this
      ensures Valid()
      ensures tone == t && message == old(message) && reply == old(reply)
      ensures meta == old(meta) && loading == old(loading) && intervalRef == old(intervalRef)
      ensures live == old(live) && text == old(text) && i == old(i)
    {
      tone := t;
    }

    /** The effect's cleanup when the page unmounts: cancel the reveal timer. */
    method Unmount()
      requires Valid()
      modifies this
      ensures Valid() && !Active()
      ensures reply == old(reply) && message == old(message) && text == old(text) && i == old(i)
      ensures tone == old(tone) && meta == old(meta) && loading == old(loading)
    {
      if intervalRef.Some? {
        live := live - {intervalRef.value};
      }
    }
  }

  /** Revealing "Hi" publishes "H" then "Hi" and stops; a second reveal started
      midway replaces the first; clearing during a reveal is overwritten by the
      next tick. */
  method RevealScenarios() {
    var app := new App();
    app.TypeWriterEffect("Hi");
    app.Tick();
    assert app.reply == "H";
    app.Tick();
    assert app.reply == "Hi" && app.Published() == ["H", "Hi"];
    app.Tick();
    assert !app.Active() && app.reply == "Hi";
    app.Tick();
    assert app.reply == "Hi";

    app.TypeWriterEffect("Hello");
    app.Tick();
    assert app.reply == "H";
    app.TypeWriterEffect("Yo");
    app.Tick();
    assert app.reply == "Y" && app.Published() == ["Y"];
    app.HandleClear();
    app.Tick();
    assert app.reply == "Yo";

    app.TypeWriterEffect("");
    app.Tick();
    assert !app.Active() && app.reply == "Yo" && app.Published() == [];
  }

  /** A reveal still running when Generate is clicked overwrites the progress
      text, and its prefix stays shown until the new reveal first ticks. */
  method GenerateRaceScenario() {
    var app := new App();
    app.EditMessage("Hi");
    app.TypeWriterEffect("Hello");
    var started := app.HandleGenerate();
    assert started && app.reply == Generating;
    app.Tick();
    assert app.reply == "H";
    app.ReceiveAnalysis(Analysis("English", "Greeting"));
    app.ReceiveReply("Yo");
    assert app.reply == "H" && !app.loading;
    app.Tick();
    assert app.reply == "Y";
  }
}
