/** backend/LlmService.cs: `GenerateAsync` decides between the remote chat
    completion and the deterministic `LocalSummarize`. The environment
    variables become a `Settings` value and the HTTP exchange becomes the
    `Reply` it produced; the JSON reply is a small JSON tree. */
module Llm {
  import opened Strings
  import opened Options
  import opened Collections

  // ---------------------------------------------------------------------------
  // LocalSummarize

  /** Only this many characters at the end of the prompt are summarised. */
  const Window := 1500
  /** At most this many sentences become bullets. */
  const MaxSentences := 6
  const Marker := "Summary (local fallback):\n- "
  const NoContent := "No content available to summarize."
  const BulletSeparator := "\n- "

  predicate IsTerminator(c: char) {
    c == '.' || c == '!' || c == '?'
  }

  predicate NoTerminator(s: string) {
    forall i :: 0 <= i < |s| ==> !IsTerminator(s[i])
  }

  /** `prompt[^1500..]` when the prompt is longer, else the prompt. */
  function Tail(prompt: string): (t: string)
    ensures |t| <= Window
    ensures |t| == if |prompt| < Window then |prompt| else Window
    ensures t == prompt[|prompt| - |t|..]
  {
    if |prompt| > Window then prompt[|prompt| - Window..] else prompt
  }

  /** `s.Split(new[] { '.', '!', '?' })` without options: the fragments between
      terminators, empty ones included. */
  function Split(s: string): (r: seq<string>)
    ensures |r| >= 1
    ensures forall k :: 0 <= k < |r| ==> NoTerminator(r[k])
  {
    SplitFrom(s, 0)
  }

  /** The fragments of `s[i..]`, scanning from position `i`. */
  function SplitFrom(s: string, i: nat): (r: seq<string>)
    requires i <= |s|
    ensures |r| >= 1
    ensures forall k :: 0 <= k < |r| ==> NoTerminator(r[k])
    decreases |s| - i
  {
    if i == |s| then [""]
    else
      var rest := SplitFrom(s, i + 1);
      if IsTerminator(s[i]) then [""] + rest
      else
        assert NoTerminator(rest[0]);
        [[s[i]] + rest[0]] + rest[1..]
  }

  lemma {:induction false} SplitFromTail(s: string, i: nat)
    requires 1 <= i <= |s|
    ensures SplitFrom(s, i) == SplitFrom(s[1..], i - 1)
    decreases |s| - i
  {
    if i < |s| {
      SplitFromTail(s, i + 1);
      assert s[1..][i - 1] == s[i];
    }
  }

  /** Split examines one character at a time from the front. */
  lemma SplitStep(s: string)
    requires s != []
    ensures var rest := Split(s[1..]);
      Split(s) == if IsTerminator(s[0]) then [""] + rest else [[s[0]] + rest[0]] + rest[1..]
  {
    SplitFromTail(s, 1);
  }

  /** Splitting undoes joining with a terminator: fragments that hold no
      terminator come back exactly. */
  lemma {:induction false} SplitJoin(fragments: seq<string>, t: char)
    requires |fragments| >= 1 && IsTerminator(t)
    requires forall k :: 0 <= k < |fragments| ==> NoTerminator(fragments[k])
    ensures Split(Join(fragments, [t])) == fragments
  {
    var f := fragments[0];
    var rest := if |fragments| == 1 then [] else [t] + Join(fragments[1..], [t]);
    assert Join(fragments, [t]) == f + rest;
    if |fragments| > 1 {
      SplitJoin(fragments[1..], t);
      assert rest[0] == t && rest[1..] == Join(fragments[1..], [t]);
      SplitStep(rest);
      assert Split(rest) == [""] + fragments[1..];
    } else {
      assert Split(rest) == [""];
    }
    assert f + "" == f;
    SplitFragment(f, rest, if |fragments| == 1 then [""] else [""] + fragments[1..]);
    if |fragments| == 1 {
      assert fragments == [f];
    } else {
      assert [f] + fragments[1..] == fragments;
    }
  }

  /** A prefix without terminators is absorbed into the first fragment. */
  lemma {:induction false} SplitFragment(f: string, rest: string, tail: seq<string>)
    requires NoTerminator(f)
    requires |tail| >= 1 && Split(rest) == tail
    ensures Split(f + rest) == [f + tail[0]] + tail[1..]
  {
    if f == [] {
      assert f + rest == rest;
      assert f + tail[0] == tail[0];
      assert [tail[0]] + tail[1..] == tail;
    } else {
      assert (f + rest)[1..] == f[1..] + rest;
      assert NoTerminator(f[1..]) by {
        forall i | 0 <= i < |f[1..]| ensures !IsTerminator(f[1..][i]) {
          assert f[1..][i] == f[i + 1];
        }
      }
      SplitFragment(f[1..], rest, tail);
      SplitStep(f + rest);
      assert [f[0]] + (f[1..] + tail[0]) == f + tail[0];
    }
  }

  /** `StringSplitOptions.RemoveEmptyEntries`, and `.Where(t => t.Length > 0)`. */
  function NonEmpty(ss: seq<string>): (r: seq<string>)
    ensures |r| <= |ss|
    ensures forall k :: 0 <= k < |r| ==> r[k] != [] && r[k] in ss
    ensures forall k :: 0 <= k < |ss| && ss[k] != [] ==> ss[k] in r
  {
    if ss == [] then []
    else (if ss[0] == [] then [] else [ss[0]]) + NonEmpty(ss[1..])
  }

  /** The test `.Where(t => t.Length > 0)` applies. */
  predicate Filled(t: string) {
    t != []
  }

  /** Dropping the empty entries is the order- and repeat-preserving filter. */
  lemma {:induction false} NonEmptyIsFilter(ss: seq<string>)
    ensures NonEmpty(ss) == Filter(ss, Filled)
  {
    if ss != [] {
      NonEmptyIsFilter(ss[1..]);
      assert ss == [ss[0]] + ss[1..];
      FilterAppend([ss[0]], ss[1..], Filled);
      FilterSingle(ss[0], Filled);
    }
  }

  /** `.Select(t => t.Trim())`. */
  function TrimAll(ss: seq<string>): (r: seq<string>)
    ensures |r| == |ss| && forall k :: 0 <= k < |ss| ==> r[k] == Trim(ss[k])
  {
    seq(|ss|, k requires 0 <= k < |ss| => Trim(ss[k]))
  }

  /** `.Take(n)`. */
  function Take(ss: seq<string>, n: nat): (r: seq<string>)
    ensures |r| == if |ss| < n then |ss| else n
    ensures r == ss[..|r|]
  {
    if |ss| <= n then ss else ss[..n]
  }

  /** The sentences the local summariser turns into bullets. */
  function Sentences(text: string): seq<string> {
    Take(NonEmpty(TrimAll(NonEmpty(Split(text)))), MaxSentences)
  }

  function LocalSummarize(prompt: string): (r: string)
    ensures |Marker| <= |r| && r[..|Marker|] == Marker
  {
    var bullets := Join(Sentences(Tail(prompt)), BulletSeparator);
    var body := if IsBlank(bullets) then NoContent else bullets;
    assert (Marker + body)[..|Marker|] == Marker;
    Marker + body
  }

  lemma TrimNoTerminator(s: string)
    requires NoTerminator(s)
    ensures NoTerminator(Trim(s))
  {
    TrimIsSlice(s);
    var a := |s| - |TrimStart(s)|;
    var r := Trim(s);
    assert forall i :: 0 <= i < |r| ==> r[i] == s[a + i];
  }

  /** A sentence as the summariser emits it: non-empty, with no terminator
      and no white space at either end. */
  predicate IsSentence(t: string) {
    t != [] && NoTerminator(t) && !IsWhiteSpace(t[0]) && !IsWhiteSpace(t[|t| - 1])
  }

  lemma NonEmptyNoTerminator(ss: seq<string>)
    requires forall k :: 0 <= k < |ss| ==> NoTerminator(ss[k])
    ensures forall k :: 0 <= k < |NonEmpty(ss)| ==> NoTerminator(NonEmpty(ss)[k])
  {
    var r := NonEmpty(ss);
    forall k | 0 <= k < |r| ensures NoTerminator(r[k]) {
      var m :| 0 <= m < |ss| && ss[m] == r[k];
    }
  }

  lemma TrimAllSentences(a: seq<string>)
    requires forall k :: 0 <= k < |a| ==> NoTerminator(a[k])
    ensures forall k :: 0 <= k < |TrimAll(a)| && TrimAll(a)[k] != [] ==> IsSentence(TrimAll(a)[k])
  {
    var b := TrimAll(a);
    forall k | 0 <= k < |b| && b[k] != [] ensures IsSentence(b[k]) {
      TrimNoTerminator(a[k]);
    }
  }

  lemma NonEmptySentences(b: seq<string>)
    requires forall k :: 0 <= k < |b| && b[k] != [] ==> IsSentence(b[k])
    ensures forall k :: 0 <= k < |NonEmpty(b)| ==> IsSentence(NonEmpty(b)[k])
  {
    var c := NonEmpty(b);
    forall k | 0 <= k < |c| ensures IsSentence(c[k]) {
      var m :| 0 <= m < |b| && b[m] == c[k];
    }
  }

  /** At most six sentences; each is non-empty, holds no terminator, and has no
      white space at either end. */
  lemma SentencesShape(text: string)
    ensures var ss := Sentences(text);
      && |ss| <= MaxSentences
      && forall k :: 0 <= k < |ss| ==> IsSentence(ss[k])
  {
    var a := NonEmpty(Split(text));
    NonEmptyNoTerminator(Split(text));
    TrimAllSentences(a);
    NonEmptySentences(TrimAll(a));
  }

  /** The sentences are the first six non-empty trimmed non-empty fragments,
      in order, repeats included. */
  lemma SentencesAreFirstFragments(text: string)
    ensures var frags := Filter(TrimAll(Filter(Split(text), Filled)), Filled);
      var ss := Sentences(text);
      && |ss| == (if |frags| < MaxSentences then |frags| else MaxSentences)
      && ss == frags[..|ss|]
  {
    var a := NonEmpty(Split(text));
    NonEmptyIsFilter(Split(text));
    NonEmptyIsFilter(TrimAll(a));
  }

  /** Without sentences the summary says there is no content; otherwise every
      sentence is one bullet, in order. */
  lemma LocalSummarizeShape(prompt: string)
    ensures var ss := Sentences(Tail(prompt));
      LocalSummarize(prompt) == Marker + (if ss == [] then NoContent else Join(ss, BulletSeparator))
  {
    var ss := Sentences(Tail(prompt));
    if ss != [] {
      SentencesShape(Tail(prompt));
      JoinAt(ss, BulletSeparator, 0);
      var j := Join(ss, BulletSeparator);
      assert j[0] == ss[0][0];
    }
  }

  /** A prompt made only of terminators and white space falls back to the
      "no content" text. */
  lemma NothingToSummarize(prompt: string)
    requires forall i :: 0 <= i < |prompt| ==> IsTerminator(prompt[i]) || IsWhiteSpace(prompt[i])
    ensures LocalSummarize(prompt) == Marker + NoContent
  {
    var t := Tail(prompt);
    assert forall i :: 0 <= i < |t| ==> t[i] == prompt[|prompt| - |t| + i];
    SplitBlank(t);
    var a := NonEmpty(Split(t));
    var b := TrimAll(a);
    forall k | 0 <= k < |b| ensures b[k] == [] {
      var m :| 0 <= m < |Split(t)| && Split(t)[m] == a[k];
      assert IsBlank(a[k]);
      TrimStartBlank(a[k]);
    }
    NonEmptyOfEmpties(b);
    LocalSummarizeShape(prompt);
  }

  /** The fragments of terminators and white space are blank. */
  lemma {:induction false} SplitBlank(s: string)
    requires forall i :: 0 <= i < |s| ==> IsTerminator(s[i]) || IsWhiteSpace(s[i])
    ensures forall k :: 0 <= k < |Split(s)| ==> IsBlank(Split(s)[k])
  {
    if s != [] {
      assert forall i :: 0 <= i < |s[1..]| ==> s[1..][i] == s[i + 1];
      SplitBlank(s[1..]);
      SplitStep(s);
    }
  }

  lemma {:induction false} TrimStartBlank(s: string)
    requires IsBlank(s)
    ensures TrimStart(s) == []
  {
    if s != [] {
      TrimStartStep(s);
      TrimStartBlank(s[1..]);
    }
  }

  lemma {:induction false} NonEmptyOfEmpties(ss: seq<string>)
    requires forall k :: 0 <= k < |ss| ==> ss[k] == []
    ensures NonEmpty(ss) == []
  {
    if ss != [] {
      NonEmptyOfEmpties(ss[1..]);
    }
  }

  // ---------------------------------------------------------------------------
  // GenerateAsync

  /** A parsed JSON value; numbers and booleans are not told apart. */
  datatype Json =
    | JNull
    | JString(str: string)
    | JArray(items: seq<Json>)
    | JObject(members: seq<(string, Json)>)
    | JScalar

  /** What the POST to the chat completions endpoint gave: an exception from
      the transport, or a status and the body, which may fail to parse as JSON
      (`None`: JsonDocument.Parse throws). */
  datatype Reply = TransportFailure | Answered(success: bool, body: Option<Json>)

  /** LLM_PROVIDER and OPENAI_API_KEY, each possibly unset. */
  datatype Settings = Settings(provider: Option<string>, apiKey: Option<string>)

  const DefaultProvider := "openai"

  function Provider(settings: Settings): (p: string)
    ensures settings.provider.None? ==> p == DefaultProvider
    ensures settings.provider.Some? ==> p == settings.provider.value
  {
    match settings.provider
    case None => DefaultProvider
    case Some(p) => p
  }

  /** `string.IsNullOrWhiteSpace(key)`. */
  predicate KeyMissing(key: Option<string>) {
    key.None? || IsBlank(key.value)
  }

  /** The position of the member JsonElement.TryGetProperty finds: when a
      name repeats, the last one wins. */
  function PropertyIndex(members: seq<(string, Json)>, name: string): (r: Option<nat>)
    ensures r.None? ==> forall i :: 0 <= i < |members| ==> members[i].0 != name
    ensures r.Some? ==> r.value < |members| && members[r.value].0 == name
    ensures r.Some? ==> forall j :: r.value < j < |members| ==> members[j].0 != name
  {
    if members == [] then None
    else if members[|members| - 1].0 == name then Some(|members| - 1)
    else PropertyIndex(members[..|members| - 1], name)
  }

  /** JsonElement.TryGetProperty: the value of that member, if any. */
  function Property(members: seq<(string, Json)>, name: string): (r: Option<Json>)
    ensures r.None? <==> forall i :: 0 <= i < |members| ==> members[i].0 != name
  {
    match PropertyIndex(members, name)
    case None => None
    case Some(i) => Some(members[i].1)
  }

  /** `choices[0].message.content` as a string. Each way this lookup gives up
      (`TryGetProperty` false, `GetArrayLength` zero) or throws (a lookup in
      something that is not an object, a length of something that is not an
      array, GetString of a non-string) and the `null` content all end in
      `None`: the caller then summarises locally. */
  function RemoteContent(root: Json): (r: Option<string>)
    ensures !root.JObject? ==> r.None?
  {
    if !root.JObject? then None
    else
      var choices := Property(root.members, "choices");
      if choices.None? || !choices.value.JArray? || |choices.value.items| == 0 then None
      else
        var first := choices.value.items[0];
        if !first.JObject? then None
        else
          var message := Property(first.members, "message");
          if message.None? || !message.value.JObject? then None
          else
            var content := Property(message.value.members, "content");
            if content.Some? && content.value.JString? then Some(content.value.str) else None
  }

  /** The shape of a chat completion carrying `content`. */
  function Completion(content: string): Json {
    JObject([("choices", JArray([JObject([("message", JObject([("role", JString("assistant")), ("content", JString(content))]))])]))])
  }

  /** A well-formed completion yields its content. */
  lemma RemoteContentOfCompletion(content: string)
    ensures RemoteContent(Completion(content)) == Some(content)
  {
    var message := [("role", JString("assistant")), ("content", JString(content))];
    assert Property(message, "content") == Some(JString(content));
  }

  /** A completion whose content is JSON `null` falls back. */
  lemma NullContentFallsBack()
    ensures RemoteContent(JObject([("choices", JArray([JObject([("message", JObject([("content", JNull)]))])]))])) == None
  {
  }

  /** Whether the reply is used instead of the local summary. */
  predicate UsesRemote(settings: Settings, reply: Reply) {
    && EqualsIgnoreCase(Provider(settings), DefaultProvider)
    && !KeyMissing(settings.apiKey)
    && reply.Answered? && reply.success
    && reply.body.Some? && RemoteContent(reply.body.value).Some?
  }

  /** GenerateAsync: the remote content when the provider is "openai" (any
      case), a key is set, and the reply is a successful, well-formed
      completion with string content; LocalSummarize(prompt) in every other case. */
  function Generate(settings: Settings, prompt: string, reply: Reply): (r: string)
    ensures UsesRemote(settings, reply) ==> r == RemoteContent(reply.body.value).value
    ensures !UsesRemote(settings, reply) ==> r == LocalSummarize(prompt)
  {
    if !EqualsIgnoreCase(Provider(settings), DefaultProvider) then LocalSummarize(prompt)
    else if KeyMissing(settings.apiKey) then LocalSummarize(prompt)
    else if reply.TransportFailure? || !reply.success then LocalSummarize(prompt)
    else if reply.body.None? then LocalSummarize(prompt)
    else
      var content := RemoteContent(reply.body.value);
      if content.Some? then content.value else LocalSummarize(prompt)
  }

  /** Without a key, or with another provider, the reply never matters. */
  lemma OfflineIgnoresReply(settings: Settings, prompt: string, r1: Reply, r2: Reply)
    requires KeyMissing(settings.apiKey) || !EqualsIgnoreCase(Provider(settings), DefaultProvider)
    ensures Generate(settings, prompt, r1) == Generate(settings, prompt, r2) == LocalSummarize(prompt)
  {
  }

  /** With no provider set and a key present, a successful completion is
      returned verbatim. */
  lemma DefaultProviderUsesCompletion(key: string, prompt: string, content: string)
    requires !IsBlank(key)
    ensures Generate(Settings(None, Some(key)), prompt, Answered(true, Some(Completion(content)))) == content
  {
    RemoteContentOfCompletion(content);
  }
}
