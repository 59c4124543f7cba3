/** `BuildPrompt` of backend/RagService.cs: a tone chosen by the requested style,
    and a fixed template holding the retrieved context and the question. */
module Rag {
  import opened Options

  const BulletsTone := "Respond in concise bullet points."
  const ConciseTone := "Respond in 3-4 short sentences."
  const DefaultTone := "Respond clearly with citations to snippets when possible."

  /** The template up to the context: a blank first line (the verbatim string
      starts with a line break), the instruction and the opening rule. */
  const Head := "\nYou are an assistant answering based only on the Context below.\n\nContext:\n-------\n"
  /** Between the context and the question. */
  const Middle := "\n-------\n\nQuestion: "
  /** Between the question and the tone. */
  const BeforeTone := "\n\n"

  /** The `switch` on the style: an exact, case-sensitive match of "bullets" or
      "concise"; anything else, null included, gets the default tone. */
  function Tone(style: Option<string>): (tone: string)
    ensures tone == BulletsTone <==> style == Some("bullets")
    ensures tone == ConciseTone <==> style == Some("concise")
    ensures tone == DefaultTone <==> style != Some("bullets") && style != Some("concise")
  {
    match style
    case Some("bullets") => BulletsTone
    case Some("concise") => ConciseTone
    case _ => DefaultTone
  }

  function BuildPrompt(context: string, question: string, style: Option<string>): (p: string)
    ensures |p| == |Head| + |context| + |Middle| + |question| + |BeforeTone| + |Tone(style)|
    ensures p[..|Head|] == Head
    ensures p[|p| - |Tone(style)|..] == Tone(style)
  {
    Head + context + Middle + question + BeforeTone + Tone(style)
  }

  /** The parts a prompt was built from. */
  datatype Parts = Parts(context: string, question: string, tone: string)

  /** Whether `p` ends with `suffix`. */
  predicate EndsWith(p: string, suffix: string) {
    |suffix| <= |p| && p[|p| - |suffix|..] == suffix
  }

  /** The tone a prompt ends with. */
  function ToneOf(p: string): string {
    if EndsWith(p, BulletsTone) then BulletsTone
    else if EndsWith(p, ConciseTone) then ConciseTone
    else DefaultTone
  }

  /** Takes a string apart around the fixed pieces `head`, `middle` and
      `sep` and a trailing `tone`, given the length of the part after `head`. */
  function Unframe(p: string, head: string, middle: string, sep: string, tone: string, n: nat): Option<Parts> {
    var qStart := |head| + n + |middle|;
    if qStart + |sep| + |tone| <= |p|
      && p[..|head|] == head
      && p[|head| + n..qStart] == middle
      && p[qStart..][|p| - qStart - |sep| - |tone|..] == sep + tone
    then Some(Parts(p[|head|..|head| + n], p[qStart..|p| - |sep| - |tone|], tone))
    else None
  }

  /** Reads a prompt back, given the length of its context (the context is free
      text and may itself contain the template's rule lines). */
  function ParsePrompt(p: string, contextLength: nat): Option<Parts> {
    Unframe(p, Head, Middle, BeforeTone, ToneOf(p), contextLength)
  }

  /** Framing pieces by fixed strings and taking them apart again gives the
      pieces back. */
  lemma UnframeFrame(h: string, c: string, m: string, q: string, s: string, t: string)
    ensures Unframe(h + c + m + q + s + t, h, m, s, t, |c|) == Some(Parts(c, q, t))
  {
    var p := h + c + m + q + s + t;
    var qs := |h| + |c| + |m|;
    assert p == (h + c + m) + (q + (s + t));
    assert p[qs..] == q + (s + t);
    assert p[..|h|] == h;
    assert p[|h|..|h| + |c|] == c;
    assert p[|h| + |c|..qs] == m;
    assert p[qs..|p| - |s| - |t|] == q;
  }

  /** No tone is a suffix of "\n\n" followed by another tone, so the tone at the
      end of a prompt is never mistaken for another. */
  lemma ToneOfTail(question: string, style: Option<string>)
    ensures ToneOf(question + BeforeTone + Tone(style)) == Tone(style)
  {
    var tone := Tone(style);
    var tail := question + BeforeTone + tone;
    assert tail[|tail| - 3..] == tone[|tone| - 3..];
    assert BulletsTone[|BulletsTone| - 3..] == "ts.";
    assert ConciseTone[|ConciseTone| - 3..] == "es.";
    assert DefaultTone[|DefaultTone| - 3..] == "le.";
    if EndsWith(tail, BulletsTone) {
      assert tail[|tail| - 3..] == BulletsTone[|BulletsTone| - 3..];
    }
    if EndsWith(tail, ConciseTone) {
      assert tail[|tail| - 3..] == ConciseTone[|ConciseTone| - 3..];
    }
  }

  lemma Regroup(h: string, c: string, m: string, q: string, s: string, t: string)
    ensures h + c + m + q + s + t == (h + c + m) + (q + s + t)
  {
  }

  /** The tone sits at the very end, so it is read back as itself. */
  lemma ToneOfPrompt(context: string, question: string, style: Option<string>)
    ensures ToneOf(BuildPrompt(context, question, style)) == Tone(style)
  {
    var tone := Tone(style);
    ToneOfTail(question, style);
    Regroup(Head, context, Middle, question, BeforeTone, tone);
    ToneOfConcat(Head + context + Middle, question + BeforeTone + tone);
  }

  /** Context, question and tone are inserted verbatim and in this order, so
      the prompt gives all three back. */
  lemma ParseBuildPrompt(context: string, question: string, style: Option<string>)
    ensures ParsePrompt(BuildPrompt(context, question, style), |context|)
         == Some(Parts(context, question, Tone(style)))
  {
    ToneOfPrompt(context, question, style);
    UnframeFrame(Head, context, Middle, question, BeforeTone, Tone(style));
  }

  lemma EndsWithConcat(x: string, y: string, t: string)
    requires |t| <= |y|
    ensures EndsWith(x + y, t) <==> EndsWith(y, t)
  {
    assert (x + y)[|x + y| - |t|..] == y[|y| - |t|..];
  }

  lemma ToneOfConcat(x: string, y: string)
    requires |y| >= |BulletsTone| && |y| >= |ConciseTone|
    ensures ToneOf(x + y) == ToneOf(y)
  {
    EndsWithConcat(x, y, BulletsTone);
    EndsWithConcat(x, y, ConciseTone);
  }
}
