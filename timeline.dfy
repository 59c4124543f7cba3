/** `ExtractTimelineAsync` and `TryParse` of backend/TimelineService.cs. The
    text generator and the JSON deserialiser are parameters: `generate` stands
    for LlmService.GenerateAsync and `deserialize` for
    JsonSerializer.Deserialize<List<TimelineEvent>>. */
module Timeline {
  import opened Strings

  datatype Event = Event(title: string, date: string, summary: string)

  /** What deserialising the generated text can give: an exception (malformed
      JSON, plain prose), the JSON literal `null`, or a list of events. */
  datatype Parsed = Malformed | NullList | Events(events: seq<Event>)

  /** Only this many chunks go into the prompt. */
  const SampleSize := 6
  /** The fallback summary keeps at most this many characters of the raw output. */
  const SummaryLimit := 300
  const Ellipsis := "..."
  const ChunkSeparator := "\n\n"

  /** The instruction that opens the prompt; the sampled text follows it. */
  const Header := "From the following document excerpts, extract a timeline of 6-10 key discoveries or events\nin chronological order. If dates are absent, infer rough order. Return as JSON array with\nfields: title, date (string), summary (1 sentence).\n\nText:\n"

  /** `chunks.Take(6)`. */
  function Sample(chunks: seq<string>): (s: seq<string>)
    ensures |s| == if |chunks| < SampleSize then |chunks| else SampleSize
    ensures s == chunks[..|s|]
  {
    if |chunks| <= SampleSize then chunks else chunks[..SampleSize]
  }

  function TimelinePrompt(chunks: seq<string>): (p: string)
    ensures |Header| <= |p| && p[..|Header|] == Header
    ensures p[|Header|..] == Join(Sample(chunks), ChunkSeparator)
  {
    var p := Header + Join(Sample(chunks), ChunkSeparator);
    assert p[|Header|..] == Join(Sample(chunks), ChunkSeparator);
    p
  }

  /** Chunks after the sixth never reach the prompt. */
  lemma PromptIgnoresLaterChunks(chunks: seq<string>, later: seq<string>)
    requires |chunks| >= SampleSize
    ensures TimelinePrompt(chunks + later) == TimelinePrompt(chunks)
  {
    assert (chunks + later)[..SampleSize] == chunks[..SampleSize];
  }

  /** `s.Length > 300 ? s[..300] + "..." : s`. */
  function Truncate(s: string): (r: string)
    ensures |r| <= SummaryLimit + |Ellipsis|
    ensures |s| <= SummaryLimit ==> r == s
    ensures |s| > SummaryLimit ==>
      (|r| == SummaryLimit + |Ellipsis| && r[..SummaryLimit] == s[..SummaryLimit] && r[SummaryLimit..] == Ellipsis)
  {
    if |s| > SummaryLimit then s[..SummaryLimit] + Ellipsis else s
  }

  /** A truncated summary is a prefix of the raw output, then possibly "...". */
  lemma TruncatePrefix(s: string)
    ensures var r := Truncate(s); var n := if |s| < SummaryLimit then |s| else SummaryLimit;
      n <= |r| && r[..n] == s[..n]
  {
  }

  /** The single event that stands in for an unparsable reply. */
  function Fallback(s: string): (e: Event)
    ensures e.title == "Summary" && e.date == "n/a"
    ensures |e.summary| <= SummaryLimit + |Ellipsis|
    ensures |s| <= SummaryLimit ==> e.summary == s
    ensures |s| > SummaryLimit ==> e.summary == s[..SummaryLimit] + Ellipsis
  {
    Event("Summary", "n/a", Truncate(s))
  }

  /** TryParse: a successful parse is returned as it is (no reordering, no
      validation), `null` becomes the empty list, and any failure becomes
      exactly one fallback event. */
  function TryParse(s: string, parsed: Parsed): (r: seq<Event>)
    ensures parsed.Events? ==> r == parsed.events
    ensures parsed.NullList? ==> r == []
    ensures parsed.Malformed? ==> |r| == 1 && r[0] == Fallback(s)
  {
    match parsed
    case Events(events) => events
    case NullList => []
    case Malformed => [Fallback(s)]
  }

  /** ExtractTimelineAsync: prompt from the first six chunks, one generation,
      then TryParse of what came back. */
  function ExtractTimeline(chunks: seq<string>, generate: string -> string,
                           deserialize: string -> Parsed): (r: seq<Event>)
    ensures var reply := generate(TimelinePrompt(chunks));
      r == TryParse(reply, deserialize(reply))
  {
    var json := generate(TimelinePrompt(chunks));
    TryParse(json, deserialize(json))
  }

  /** A reply that does not parse gives one "Summary" event dated "n/a" whose
      summary is at most 303 characters long. */
  lemma MalformedReplyGivesOneEvent(chunks: seq<string>, generate: string -> string,
                                    deserialize: string -> Parsed)
    requires deserialize(generate(TimelinePrompt(chunks))).Malformed?
    ensures var r := ExtractTimeline(chunks, generate, deserialize);
      |r| == 1 && r[0].title == "Summary" && r[0].date == "n/a"
      && |r[0].summary| <= SummaryLimit + |Ellipsis|
  {
  }
}
