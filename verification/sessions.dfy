/** The pure parts of the backend message route: the token-metadata builder
    that widens each parser offset to the alphanumeric word around it, the
    history window that keeps the last five lines and summarises the rest,
    prompt assembly, and the guards `post_message` applies before doing any
    work. */
module Sessions {
  import opened Wrappers
  import opened Text

  // ---------------------------------------------------------------------
  // Python character classes
  // ---------------------------------------------------------------------

  /** `str.isalpha` on one character, over Latin-1: the ASCII letters, the
      feminine and masculine ordinals, the micro sign and the accented
      letters (every Spanish letter is among them). */
  predicate IsAlpha(c: char) {
    || ('a' <= c <= 'z') || ('A' <= c <= 'Z')
    || c == '\U{AA}' || c == '\U{B5}' || c == '\U{BA}'
    || ('\U{C0}' <= c <= '\U{D6}') || ('\U{D8}' <= c <= '\U{F6}') || ('\U{F8}' <= c <= '\U{FF}')
  }

  /** `str.isalnum` on one character, over Latin-1: a letter, a decimal
      digit, a superscript digit or a vulgar fraction. */
  predicate IsAlnum(c: char) {
    || IsAlpha(c) || ('0' <= c <= '9')
    || c == '\U{B2}' || c == '\U{B3}' || c == '\U{B9}'
    || ('\U{BC}' <= c <= '\U{BE}')
  }

  /** Every letter is alphanumeric, as for Python's tables: a word kept for
      holding a letter is made of alphanumeric characters throughout. */
  lemma AlphaIsAlnum(c: char)
    ensures IsAlpha(c) ==> IsAlnum(c)
  {
  }

  predicate AllAlnum(w: string) {
    forall i :: 0 <= i < |w| ==> IsAlnum(w[i])
  }

  /** `any(c.isalpha() for c in w)` */
  predicate HasAlpha(w: string) {
    exists i :: 0 <= i < |w| && IsAlpha(w[i])
  }

  // ---------------------------------------------------------------------
  // build_token_metadata
  // ---------------------------------------------------------------------

  /** One element of the returned list: `{"index", "blurb", "word"}`. */
  datatype Entry = Entry(index: nat, blurb: string, word: string)

  /** The first `while`: `word_start` moves left from `i` while the
      character before it is alphanumeric. */
  function RunStart(text: string, i: nat): (k: nat)
    requires i <= |text|
    ensures k <= i
    ensures forall j :: k <= j < i ==> IsAlnum(text[j])
    ensures k > 0 ==> !IsAlnum(text[k - 1])
  {
    if i > 0 && IsAlnum(text[i - 1]) then RunStart(text, i - 1) else i
  }

  /** The second `while`: `word_end` moves right from `i` while the
      character at it is alphanumeric. */
  function RunEnd(text: string, i: nat): (k: nat)
    requires i <= |text|
    ensures i <= k <= |text|
    ensures forall j :: i <= j < k ==> IsAlnum(text[j])
    ensures k < |text| ==> !IsAlnum(text[k])
    decreases |text| - i
  {
    if i < |text| && IsAlnum(text[i]) then RunEnd(text, i + 1) else i
  }

  /** `e` describes the word the parser offset `idx` sits in or right after:
      it is the text at `e.index`, it spans `idx` (possibly ending exactly
      there), it is alphanumeric with at least one letter, and it cannot be
      extended on either side. */
  ghost predicate WordAround(text: string, idx: nat, e: Entry) {
    && e.index + |e.word| <= |text|
    && e.word == text[e.index..e.index + |e.word|]
    && e.index <= idx <= e.index + |e.word|
    && AllAlnum(e.word)
    && HasAlpha(e.word)
    && (e.index == 0 || !IsAlnum(text[e.index - 1]))
    && (e.index + |e.word| == |text| || !IsAlnum(text[e.index + |e.word|]))
  }

  /** The body of the `for idx, blurb in token_data` loop for one pair: an
      offset past the text is dropped; otherwise the offset is widened to the
      alphanumeric run around it, and the run is kept only if it holds a
      letter. The entry is the word around `idx` whenever there is one. */
  function Widen(text: string, idx: nat, blurb: string): (r: Option<Entry>)
    ensures r.Some? ==> idx < |text| && WordAround(text, idx, r.value) && r.value.blurb == blurb
    ensures r.None? ==> idx >= |text| || forall e :: !WordAround(text, idx, e)
  {
    if idx < |text| then
      var s := RunStart(text, idx);
      var e := RunEnd(text, idx);
      if e > s && HasAlpha(text[s..e]) then
        Some(Entry(s, blurb, text[s..e]))
      else
        NoWordAround(text, idx);
        None
    else
      None
  }

  /** Any word around `idx` is the maximal run the two loops find. */
  lemma WordAroundIsRun(text: string, idx: nat, e: Entry)
    requires WordAround(text, idx, e)
    ensures RunStart(text, idx) == e.index
    ensures RunEnd(text, idx) == e.index + |e.word|
  {
    var s, t := e.index, e.index + |e.word|;
    forall j | s <= j < t ensures IsAlnum(text[j]) {
      assert text[j] == e.word[j - s];
    }
    RunStartFrom(text, idx, s);
    RunEndFrom(text, idx, t);
  }

  lemma {:induction false} RunStartFrom(text: string, i: nat, s: nat)
    requires s <= i <= |text|
    requires forall j :: s <= j < i ==> IsAlnum(text[j])
    requires s == 0 || !IsAlnum(text[s - 1])
    ensures RunStart(text, i) == s
    decreases i
  {
    if i > s {
      RunStartFrom(text, i - 1, s);
    }
  }

  lemma {:induction false} RunEndFrom(text: string, i: nat, t: nat)
    requires i <= t <= |text|
    requires forall j :: i <= j < t ==> IsAlnum(text[j])
    requires t == |text| || !IsAlnum(text[t])
    ensures RunEnd(text, i) == t
    decreases t - i
  {
    if i < t {
      RunEndFrom(text, i + 1, t);
    }
  }

  /** When the run around `idx` holds no letter, no word is around `idx`. */
  lemma NoWordAround(text: string, idx: nat)
    requires idx < |text|
    requires !(RunEnd(text, idx) > RunStart(text, idx)
               && HasAlpha(text[RunStart(text, idx)..RunEnd(text, idx)]))
    ensures forall e :: !WordAround(text, idx, e)
  {
    forall e | WordAround(text, idx, e) ensures false {
      WordAroundIsRun(text, idx, e);
    }
  }

  /** The loop over the parser's pairs, in order. */
  function Collect(text: string, pairs: seq<(nat, string)>): (r: seq<Entry>)
    ensures |r| <= |pairs|
    ensures forall k :: 0 <= k < |r| ==> r[k].index + |r[k].word| <= |text|
  {
    if |pairs| == 0 then []
    else
      var last := pairs[|pairs| - 1];
      Collect(text, pairs[..|pairs| - 1])
      + (match Widen(text, last.0, last.1) case Some(e) => [e] case None => [])
  }

  /** `build_token_metadata(text)`: `parsed` is what `dictionary(text)`
      returns, or `None` when it raises, in which case the result is `[]`. */
  function BuildTokenMetadata(text: string, parsed: Option<seq<(nat, string)>>): (r: seq<Entry>)
    ensures parsed.None? ==> r == []
    ensures parsed.Some? ==> |r| <= |parsed.value|
  {
    match parsed
    case None => []
    case Some(pairs) => Collect(text, pairs)
  }

  /** The builder handles the pairs one at a time and in order: the output
      for `a + b` is the output for `a` followed by the output for `b`. */
  lemma {:induction false} CollectAppend(text: string, a: seq<(nat, string)>, b: seq<(nat, string)>)
    ensures Collect(text, a + b) == Collect(text, a) + Collect(text, b)
    decreases |b|
  {
    if |b| == 0 {
      assert a + b == a;
    } else {
      var b' := b[..|b| - 1];
      assert (a + b)[..|a + b| - 1] == a + b';
      assert (a + b)[|a + b| - 1] == b[|b| - 1];
      CollectAppend(text, a, b');
    }
  }

  /** For a single pair the builder emits the word around its offset when
      there is one (with the pair's blurb), and nothing otherwise. */
  lemma CollectOne(text: string, idx: nat, blurb: string)
    ensures |Collect(text, [(idx, blurb)])| <= 1
    ensures |Collect(text, [(idx, blurb)])| == 1 <==> idx < |text| && exists e :: WordAround(text, idx, e)
    ensures |Collect(text, [(idx, blurb)])| == 1 ==>
              var e := Collect(text, [(idx, blurb)])[0];
              WordAround(text, idx, e) && e.blurb == blurb
  {
    assert [(idx, blurb)][..0] == [];
  }

  /** Every emitted entry is the word around the offset of some input pair,
      and carries that pair's blurb. */
  lemma {:induction false} CollectSound(text: string, pairs: seq<(nat, string)>, k: nat)
    requires k < |Collect(text, pairs)|
    ensures exists i :: 0 <= i < |pairs| && pairs[i].0 < |text|
              && WordAround(text, pairs[i].0, Collect(text, pairs)[k])
              && Collect(text, pairs)[k].blurb == pairs[i].1
    decreases |pairs|
  {
    var n := |pairs| - 1;
    var init := pairs[..n];
    var r := Collect(text, pairs);
    if k < |Collect(text, init)| {
      CollectSound(text, init, k);
      var i :| 0 <= i < |init| && init[i].0 < |text|
                && WordAround(text, init[i].0, Collect(text, init)[k])
                && Collect(text, init)[k].blurb == init[i].1;
      assert pairs[i] == init[i];
    } else {
      assert Widen(text, pairs[n].0, pairs[n].1).Some?;
    }
  }

  /** Offsets at or past the end of the text are dropped. */
  lemma {:induction false} OutOfRangeDropped(text: string, pairs: seq<(nat, string)>)
    requires forall i :: 0 <= i < |pairs| ==> pairs[i].0 >= |text|
    ensures Collect(text, pairs) == []
    decreases |pairs|
  {
    if |pairs| > 0 {
      OutOfRangeDropped(text, pairs[..|pairs| - 1]);
    }
  }

  // ---------------------------------------------------------------------
  // History window
  // ---------------------------------------------------------------------

  /** How many of the latest history lines go into the prompt verbatim. */
  const RecentWindow: nat := 5

  /** Python `s[:-k]` for `k > 0`: everything but the last `k` elements
      (nothing when there are at most `k`). */
  function DropLast<T>(s: seq<T>, k: nat): (r: seq<T>)
    requires k > 0
    ensures |r| == if |s| > k then |s| - k else 0
    ensures forall i :: 0 <= i < |r| ==> r[i] == s[i]
  {
    if |s| > k then s[..|s| - k] else []
  }

  /** Python `s[-k:]` for `k > 0`: the last `k` elements (all of them when
      there are at most `k`). */
  function TakeLast<T>(s: seq<T>, k: nat): (r: seq<T>)
    requires k > 0
    ensures |r| == if |s| > k then k else |s|
    ensures forall i :: 0 <= i < |r| ==> r[i] == s[|s| - |r| + i]
  {
    if |s| > k then s[|s| - k..] else s
  }

  /** `s[:-k] + s[-k:] == s` in Python, for every list. */
  lemma DropTakeSplit<T>(s: seq<T>, k: nat)
    requires k > 0
    ensures DropLast(s, k) + TakeLast(s, k) == s
  {
    if |s| > k {
      assert s[..|s| - k] + s[|s| - k..] == s;
    }
  }

  /** The history split: the lines handed to the summariser (only when there
      are more than five) and the lines kept verbatim. */
  datatype Window = Window(older: Option<seq<string>>, recent: seq<string>)

  function WindowHistory(all: seq<string>): (w: Window)
    ensures |w.recent| == if |all| > RecentWindow then RecentWindow else |all|
    ensures w.recent == all[|all| - |w.recent|..]
    ensures w.older.Some? <==> |all| > RecentWindow
    ensures w.older.Some? ==> w.older.value + w.recent == all && |w.older.value| == |all| - RecentWindow
  {
    var recent := TakeLast(all, RecentWindow);
    assert recent == all[|all| - |recent|..];
    if |all| > RecentWindow then
      DropTakeSplit(all, RecentWindow);
      Window(Some(DropLast(all, RecentWindow)), recent)
    else
      Window(None, recent)
  }

  // ---------------------------------------------------------------------
  // Prompt assembly
  // ---------------------------------------------------------------------

  /** A stored message as the history query returns it. */
  datatype Row = Row(sender: string, content: string)

  /** `f"{r['sender']}: {r['content']}"` */
  function HistoryLine(r: Row): (line: string)
    ensures |line| == |r.sender| + 2 + |r.content|
    ensures line[..|r.sender|] == r.sender
    ensures line[|r.sender|..|r.sender| + 2] == ": "
    ensures line[|r.sender| + 2..] == r.content
  {
    r.sender + ": " + r.content
  }

  function HistoryLines(rows: seq<Row>): (lines: seq<string>)
    ensures |lines| == |rows|
    ensures forall i :: 0 <= i < |rows| ==> lines[i] == HistoryLine(rows[i])
  {
    seq(|rows|, i requires 0 <= i < |rows| => HistoryLine(rows[i]))
  }

  /** The user profile fields the prompt uses; `factsJson` is
      `json.dumps(user['facts'])`. */
  datatype Profile = Profile(dialect: string, experienceLevel: string, factsJson: string)

  /** `summary or "N/A"`: a missing or empty summary is shown as `N/A`. */
  function SummaryText(summary: Option<string>): (t: string)
    ensures summary.Some? && summary.value != "" ==> t == summary.value
    ensures summary.None? || summary.value == "" ==> t == "N/A"
  {
    if summary.Some? && summary.value != "" then summary.value else "N/A"
  }

  /** The system paragraph of the prompt; the first two lines end in a
      blank before the line break, as in the source's triple-quoted
      f-string. */
  function Intro(p: Profile, summary: Option<string>): (intro: string)
    ensures var head := "You are a Gen Z Spanish friend from " + p.dialect + ", \n";
            |intro| >= |head| && intro[..|head|] == head
    ensures var tail := SummaryText(summary) + ".";
            |intro| >= |tail| && intro[|intro| - |tail|..] == tail
  {
    var head := "You are a Gen Z Spanish friend from " + p.dialect + ", \n";
    var middle := "and the user is a " + p.experienceLevel + " learner. \n"
                  + "Facts about user: " + p.factsJson + ".\n"
                  + "Here is a summary of earlier conversation: ";
    var tail := SummaryText(summary) + ".";
    Affix(head, middle, tail);
    head + middle + tail
  }

  /** The line that carries the new message. */
  function UserLine(message: string): string
  {
    "user: " + message
  }

  /** `"\n".join([intro] + recent + [f"user: {user_message}"])`. */
  function BuildPrompt(intro: string, recent: seq<string>, message: string): (prompt: string)
  {
    Join([intro] + recent + [UserLine(message)], "\n")
  }

  /** The prompt is the intro, then each recent line preceded by a line
      break, then a line break and the user line. */
  lemma PromptLayout(intro: string, recent: seq<string>, message: string)
    ensures BuildPrompt(intro, recent, message)
            == intro + Concat(seq(|recent|, i requires 0 <= i < |recent| => "\n" + recent[i]))
               + "\n" + UserLine(message)
  {
    JoinLast(intro, recent, UserLine(message), "\n");
  }

  /** The prompt starts with the intro and ends with the user line. */
  lemma PromptEnds(intro: string, recent: seq<string>, message: string)
    ensures var prompt := BuildPrompt(intro, recent, message);
            |prompt| >= |intro| + |UserLine(message)|
            && prompt[..|intro|] == intro
            && prompt[|prompt| - |UserLine(message)|..] == UserLine(message)
  {
    PromptLayout(intro, recent, message);
    var mid := Concat(seq(|recent|, i requires 0 <= i < |recent| => "\n" + recent[i])) + "\n";
    Affix(intro, mid, UserLine(message));
  }

  lemma Affix(a: string, b: string, c: string)
    ensures var s := a + b + c;
            |s| >= |a| + |c| && s[..|a|] == a && s[|s| - |c|..] == c
  {
  }

  /** `sep.join([first] + middle + [last])` puts `sep` before every element
      after the first. */
  lemma JoinLast(first: string, middle: seq<string>, last: string, sep: string)
    ensures Join([first] + middle + [last], sep)
            == first + Concat(seq(|middle|, i requires 0 <= i < |middle| => sep + middle[i])) + sep + last
  {
    var lines := middle + [last];
    assert [first] + middle + [last] == [first] + lines;
    JoinCons(first, lines, sep);
    var tail := seq(|lines|, i requires 0 <= i < |lines| => sep + lines[i]);
    var front := seq(|middle|, i requires 0 <= i < |middle| => sep + middle[i]);
    assert tail == front + [sep + last];
    ConcatAppend(front, [sep + last]);
    assert Concat([sep + last]) == sep + last by {
      assert [sep + last][..0] == [];
    }
  }

  // ---------------------------------------------------------------------
  // post_message
  // ---------------------------------------------------------------------

  /** `HTTPException(status_code, detail)` */
  datatype HttpError = HttpError(status: nat, detail: string)

  /** A row written to the messages table. */
  datatype Stored = Stored(sender: string, content: string, tokenMetadata: Option<seq<Entry>>)

  /** What the route does on success: the response body fields, the prompt
      sent to the model, the lines handed to the summariser (if any) and the
      two rows stored, in order. */
  datatype Posted = Posted(reply: string, sessionId: string, tokens: seq<Entry>,
                           prompt: string, summarized: Option<seq<string>>, stored: seq<Stored>)

  /** `post_message`. The database is represented by `owned` (whether the
      session belongs to the caller), the caller's profile and the session's
      history rows; the summariser, the chat model and the sentence parser
      are parameters. */
  function PostMessage(sessionId: string, message: Option<string>, owned: bool,
                       profile: Profile, history: seq<Row>,
                       summarize: seq<string> -> string,
                       llm: string -> string,
                       parse: string -> Option<seq<(nat, string)>>): (r: Result<Posted, HttpError>)
    ensures message.None? || message.value == "" ==> r == Err(HttpError(400, "Message text required"))
    ensures message.Some? && message.value != "" && !owned ==> r == Err(HttpError(404, "Session not found"))
    ensures r.Ok? <==> message.Some? && message.value != "" && owned
    ensures r.Ok? ==>
              && (r.value.summarized.Some? <==> |history| > RecentWindow)
              && r.value.stored == [Stored("user", message.value, None),
                                    Stored("bot", r.value.reply, Some(r.value.tokens))]
              && r.value.sessionId == sessionId
              && |r.value.prompt| >= |UserLine(message.value)|
              && r.value.prompt[|r.value.prompt| - |UserLine(message.value)|..] == UserLine(message.value)
    ensures r.Ok? ==>
              var all := HistoryLines(history);
              && r.value.summarized == (if |all| > RecentWindow then Some(DropLast(all, RecentWindow)) else None)
              && r.value.prompt == BuildPrompt(Intro(profile, Summarize(summarize, r.value.summarized)),
                                               TakeLast(all, RecentWindow), message.value)
              && r.value.reply == llm(r.value.prompt)
              && r.value.tokens == BuildTokenMetadata(r.value.reply, parse(r.value.reply))
  {
    if message.None? || message.value == "" then
      Err(HttpError(400, "Message text required"))
    else if !owned then
      Err(HttpError(404, "Session not found"))
    else
      var w := WindowHistory(HistoryLines(history));
      var summary := Summarize(summarize, w.older);
      var intro := Intro(profile, summary);
      var prompt := BuildPrompt(intro, w.recent, message.value);
      PromptEnds(intro, w.recent, message.value);
      var reply := llm(prompt);
      var tokens := BuildTokenMetadata(reply, parse(reply));
      Ok(Posted(reply, sessionId, tokens, prompt, w.older,
                [Stored("user", message.value, None), Stored("bot", reply, Some(tokens))]))
  }

  /** `summarize_history(older)` when there are older lines, else `None`. */
  function Summarize(summarize: seq<string> -> string, older: Option<seq<string>>): (summary: Option<string>)
    ensures summary.Some? <==> older.Some?
    ensures older.Some? ==> summary.value == summarize(older.value)
  {
    if older.Some? then Some(summarize(older.value)) else None
  }

  /** The prompt sent to the model, stated line by line: the intro (built
      from the profile and the summary of the older lines, or `N/A`), then
      each of the last min(5, n) history lines, in order and preceded by a
      line break, then a line break and the user line. (`PostMessage`
      itself states that the reply answers exactly this prompt and that the
      tokens are built from the reply.) */
  lemma PostMessagePrompt(sessionId: string, message: string, profile: Profile, history: seq<Row>,
                          summarize: seq<string> -> string, llm: string -> string,
                          parse: string -> Option<seq<(nat, string)>>)
    requires message != ""
    ensures var r := PostMessage(sessionId, Some(message), true, profile, history, summarize, llm, parse);
            var n := |history|;
            var k := if n > RecentWindow then RecentWindow else n;
            var summary := if n > RecentWindow then Some(summarize(HistoryLines(history)[..n - RecentWindow]))
                           else None;
            && r.Ok?
            && r.value.prompt
               == Intro(profile, summary)
                  + Concat(seq(k, i requires 0 <= i < k => "\n" + HistoryLine(history[n - k + i])))
                  + "\n" + UserLine(message)
  {
    var r := PostMessage(sessionId, Some(message), true, profile, history, summarize, llm, parse);
    var all := HistoryLines(history);
    var summary := Summarize(summarize, r.value.summarized);
    OlderLines(history, summarize);
    PromptLayout(Intro(profile, summary), TakeLast(all, RecentWindow), message);
    RecentLines(history);
  }

  /** The summary is taken over the history lines before the last five. */
  lemma OlderLines(history: seq<Row>, summarize: seq<string> -> string)
    ensures var all := HistoryLines(history);
            var n := |history|;
            Summarize(summarize, if n > RecentWindow then Some(DropLast(all, RecentWindow)) else None)
            == if n > RecentWindow then Some(summarize(all[..n - RecentWindow])) else None
  {
  }

  /** The recent lines, each preceded by a line break, are those of the last
      min(5, n) rows in order. */
  lemma RecentLines(history: seq<Row>)
    ensures var recent := TakeLast(HistoryLines(history), RecentWindow);
            var n := |history|;
            var k := if n > RecentWindow then RecentWindow else n;
            seq(|recent|, i requires 0 <= i < |recent| => "\n" + recent[i])
            == seq(k, i requires 0 <= i < k => "\n" + HistoryLine(history[n - k + i]))
  {
  }

  /** The empty-message rejection happens before anything else: the result
      depends neither on ownership, the profile, the history nor any of the
      external services. */
  lemma EmptyMessageFirst(sessionId: string, message: Option<string>,
                          owned1: bool, profile1: Profile, history1: seq<Row>,
                          summarize1: seq<string> -> string, llm1: string -> string,
                          parse1: string -> Option<seq<(nat, string)>>,
                          owned2: bool, profile2: Profile, history2: seq<Row>,
                          summarize2: seq<string> -> string, llm2: string -> string,
                          parse2: string -> Option<seq<(nat, string)>>)
    requires message.None? || message.value == ""
    ensures PostMessage(sessionId, message, owned1, profile1, history1, summarize1, llm1, parse1)
            == PostMessage(sessionId, message, owned2, profile2, history2, summarize2, llm2, parse2)
            == Err(HttpError(400, "Message text required"))
  {
  }

  /** The summariser sees exactly the lines before the last five; together
      with the recent window they make up the whole history. */
  lemma PostMessageWindow(sessionId: string, message: string, profile: Profile, history: seq<Row>,
                          summarize: seq<string> -> string, llm: string -> string,
                          parse: string -> Option<seq<(nat, string)>>)
    requires message != ""
    ensures var r := PostMessage(sessionId, Some(message), true, profile, history, summarize, llm, parse);
            r.Ok? && (r.value.summarized.Some? ==>
                        r.value.summarized.value + WindowHistory(HistoryLines(history)).recent
                        == HistoryLines(history))
  {
  }
}
