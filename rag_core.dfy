/**
 * Prompt assembly for retrieval-augmented answering: the retrieved documents, in
 * rank order, joined by a fixed separator and placed in a fixed instruction
 * template together with an optional persona sentence and the user's question.
 */
module RagCore {
  import opened Wrappers
  import opened Strings
  import VectorStoreManager

  /** Placed between two consecutive documents of the context. */
  const ContextSeparator: string := "\n\n---\n\n"

  /** The fixed text of the prompt, around the parts that vary. */
  datatype Template = Template(
    instructions: string,  // the instruction lines that open the prompt
    concise: string,       // the request to be concise, after the persona sentence
    open: string,          // the header before the context
    close: string,         // the rule after the context
    question: string,      // the cue before the user's question
    answer: string)        // the cue that ends the prompt

  /** The template of the assistant's prompt. */
  const InsightLens: Template := Template(
    "You are InsightLens, an expert AI assistant. Your task is to answer the user's question based *solely* on the provided context.\n"
    + "If the information to answer the question is not present in the context, clearly state that you cannot answer based on the provided information.\n"
    + "Do not make up information or answer from your general knowledge if it's not supported by the context.\n",
    "Be concise and directly answer the question.\n\n",
    "Provided Context:\n---\n",
    "\n---",
    "\n\nUser Question: ",
    "\n\nAnswer:\n")

  const PersonaLead: string := "Please answer from the perspective of "
  const PersonaEnd: string := ". "

  /** The `document` field of every retrieved chunk, in rank order. */
  function Documents(chunks: seq<VectorStoreManager.Hit>): (docs: seq<string>)
    ensures |docs| == |chunks|
    ensures forall i :: 0 <= i < |chunks| ==> docs[i] == chunks[i].document
  {
    seq(|chunks|, i requires 0 <= i < |chunks| => chunks[i].document)
  }

  /** The context section: the documents joined by the separator. */
  function ContextString(chunks: seq<VectorStoreManager.Hit>): string {
    JoinWith(Documents(chunks), ContextSeparator)
  }

  /** The context holds each document at its place in rank order, each but the last
      followed by the separator and the last one ending the context. */
  lemma ContextLayout(chunks: seq<VectorStoreManager.Hit>, k: nat)
    requires k < |chunks|
    ensures var ctx, o := ContextString(chunks), PartOffset(Documents(chunks), ContextSeparator, k);
      && o + |chunks[k].document| <= |ctx|
      && ctx[o..o + |chunks[k].document|] == chunks[k].document
      && (k + 1 < |chunks| ==>
            o + |chunks[k].document| + |ContextSeparator| <= |ctx| &&
            ctx[o + |chunks[k].document|..o + |chunks[k].document| + |ContextSeparator|] == ContextSeparator)
      && (k + 1 == |chunks| ==> o + |chunks[k].document| == |ctx|)
  {
    JoinLayout(Documents(chunks), ContextSeparator, k);
  }

  /** No retrieved chunks give an empty context. */
  lemma EmptyContext()
    ensures ContextString([]) == ""
  {
  }

  /** The persona sentence: empty without a persona or with an empty one. */
  function PersonaInstruction(persona: Option<string>): (s: string)
    ensures s == "" <==> persona.None? || persona.value == ""
  {
    if persona.Some? && persona.value != "" then PersonaLead + persona.value + PersonaEnd else ""
  }

  /** A non-empty persona sentence is the persona wrapped in the fixed lead and
      ending, so the persona can be read back from it. */
  lemma PersonaReadBack(persona: Option<string>)
    requires persona.Some? && persona.value != ""
    ensures var s := PersonaInstruction(persona);
      && |s| == |PersonaLead| + |persona.value| + |PersonaEnd|
      && s[..|PersonaLead|] == PersonaLead
      && s[|PersonaLead|..|s| - |PersonaEnd|] == persona.value
      && s[|s| - |PersonaEnd|..] == PersonaEnd
  {
    Parts3(PersonaLead, persona.value, PersonaEnd);
  }

  /** The part of the prompt before the context. */
  function Header(t: Template, persona: Option<string>): (h: string)
    ensures |h| == |t.instructions| + |PersonaInstruction(persona)| + |t.concise| + |t.open|
  {
    t.instructions + PersonaInstruction(persona) + t.concise + t.open
  }

  /** The header holds the instructions, then the persona sentence immediately
      followed by the request to be concise, and ends with the context header. */
  lemma HeaderLayout(t: Template, persona: Option<string>)
    ensures var h, i, p := Header(t, persona), |t.instructions|, |PersonaInstruction(persona)|;
      && h[..i] == t.instructions
      && h[i..i + p] == PersonaInstruction(persona)
      && h[i + p..i + p + |t.concise|] == t.concise
      && h[|h| - |t.open|..] == t.open
  {
    Parts4(t.instructions, PersonaInstruction(persona), t.concise, t.open);
  }

  /** The part of the prompt after the context. */
  function Trailer(t: Template, query: string): (r: string)
    ensures |r| == |t.close| + |t.question| + |query| + |t.answer|
  {
    t.close + t.question + query + t.answer
  }

  /** The trailer opens with the closing rule, then holds the question cue and the
      question, and ends with the answer cue. */
  lemma TrailerLayout(t: Template, query: string)
    ensures var r, c, q := Trailer(t, query), |t.close|, |t.question|;
      && r[..c] == t.close
      && r[c..c + q] == t.question
      && r[c + q..c + q + |query|] == query
      && r[|r| - |t.answer|..] == t.answer
  {
    Parts4(t.close, t.question, query, t.answer);
  }

  /** A template filled in: the header, the context and the trailer. */
  function Render(t: Template, query: string, chunks: seq<VectorStoreManager.Hit>, persona: Option<string>): (prompt: string)
    ensures |prompt| == |Header(t, persona)| + |ContextString(chunks)| + |Trailer(t, query)|
  {
    Header(t, persona) + ContextString(chunks) + Trailer(t, query)
  }

  /** The prompt sent to the generator: the assistant's template filled in. */
  function ConstructRagPrompt(query: string, chunks: seq<VectorStoreManager.Hit>, persona: Option<string>): (prompt: string)
    ensures |prompt| == |Header(InsightLens, persona)| + |ContextString(chunks)| + |Trailer(InsightLens, query)|
  {
    Render(InsightLens, query, chunks, persona)
  }

  /** A rendered prompt is the header, then the context, then the trailer, each found
      at its own place. */
  lemma PromptLayout(t: Template, query: string, chunks: seq<VectorStoreManager.Hit>, persona: Option<string>)
    ensures var prompt, h, ctx := Render(t, query, chunks, persona), Header(t, persona), ContextString(chunks);
      && prompt[..|h|] == h
      && prompt[|h|..|h| + |ctx|] == ctx
      && prompt[|h| + |ctx|..] == Trailer(t, query)
  {
    Parts3(Header(t, persona), ContextString(chunks), Trailer(t, query));
  }

  /** Every retrieved document appears verbatim in a rendered prompt, at its
      rank-order place inside the context section. */
  lemma PromptContainsDocuments(t: Template, query: string, chunks: seq<VectorStoreManager.Hit>,
                                persona: Option<string>, k: nat)
    requires k < |chunks|
    ensures var prompt := Render(t, query, chunks, persona);
      var o := |Header(t, persona)| + PartOffset(Documents(chunks), ContextSeparator, k);
      && o + |chunks[k].document| <= |prompt|
      && prompt[o..o + |chunks[k].document|] == chunks[k].document
  {
    PromptLayout(t, query, chunks, persona);
    DocumentInside(Render(t, query, chunks, persona), |Header(t, persona)|, chunks, k);
  }

  /** A string that holds the context at offset `c` holds the k-th document at
      offset `c` plus that document's offset in the context. */
  lemma DocumentInside(s: string, c: nat, chunks: seq<VectorStoreManager.Hit>, k: nat)
    requires k < |chunks|
    requires c + |ContextString(chunks)| <= |s| && s[c..c + |ContextString(chunks)|] == ContextString(chunks)
    ensures var o := c + PartOffset(Documents(chunks), ContextSeparator, k);
      o + |chunks[k].document| <= |s| && s[o..o + |chunks[k].document|] == chunks[k].document
  {
    ContextLayout(chunks, k);
    Nested(s, c, ContextString(chunks), PartOffset(Documents(chunks), ContextSeparator, k), chunks[k].document);
  }

  /** The three parts of a concatenation, read back by slicing. */
  lemma Parts3(a: string, b: string, c: string)
    ensures var s := a + b + c;
      && s[..|a|] == a && s[|a|..|a| + |b|] == b && s[|a| + |b|..] == c
      && s[|s| - |c|..] == c
  {
  }

  /** The four parts of a concatenation, read back by slicing. */
  lemma Parts4(a: string, b: string, c: string, d: string)
    ensures var s := a + b + c + d;
      && s[..|a|] == a && s[|a|..|a| + |b|] == b && s[|a| + |b|..|a| + |b| + |c|] == c
      && s[|s| - |d|..] == d
  {
  }

  /** A part found inside a slice is found in the whole string, shifted. */
  lemma Nested(s: string, c: nat, part: string, o: nat, x: string)
    requires c + |part| <= |s| && s[c..c + |part|] == part
    requires o + |x| <= |part| && part[o..o + |x|] == x
    ensures c + o + |x| <= |s| && s[c + o..c + o + |x|] == x
  {
    forall i | 0 <= i < |x|
      ensures s[c + o + i] == x[i]
    {
      assert x[i] == part[o + i] == s[c..c + |part|][o + i];
    }
  }
}
