/** The four prompt builders of the server (`createHeadlinePrompt`,
    `createSocialPrompt`, `createCopyEditPrompt`, `createFactCheckPrompt`).
    Each is an introduction line, an optional style-guide section, fixed
    instructions and the article text, joined by a template literal. */
module Prompts {
  import opened Text

  /** The fixed parts of one prompt. */
  datatype Template = Template(intro: string, guideTitle: string, instructions: string)

  /** `styleGuide?.trim() ? "\n\n<title>:\n<guide>\n\n---\n\n" : ''`; the guide
      itself is inserted untrimmed. `None` stands for a missing guide. */
  function GuideSection(title: string, guide: Option<string>): (section: string)
    ensures section != "" <==> guide.Some? && Trim(guide.value) != ""
  {
    if guide.Some? && Trim(guide.value) != "" then "\n\n" + title + ":\n" + guide.value + "\n\n---\n\n"
    else ""
  }

  /** The template literal: introduction, line break, guide section, line
      break, instructions, article text. */
  function Prompt(tpl: Template, guide: Option<string>, text: string): (p: string)
    ensures |text| <= |p| && p[|p| - |text|..] == text
  {
    var head := tpl.intro + "\n" + GuideSection(tpl.guideTitle, guide) + "\n" + tpl.instructions;
    assert (head + text)[|head|..] == text;
    head + text
  }

  /** A blank guide, or none, leaves no trace in the prompt. */
  lemma BlankGuideOmitted(tpl: Template, guide: Option<string>, text: string)
    requires guide.None? || Trim(guide.value) == ""
    ensures Prompt(tpl, guide, text) == tpl.intro + "\n\n" + tpl.instructions + text
  {
  }

  /** A non-blank guide appears verbatim under its title, right after the
      introduction line. */
  lemma GuideVerbatim(tpl: Template, guide: string, text: string)
    requires Trim(guide) != ""
    ensures OccursAt(Prompt(tpl, Some(guide), text),
                     "\n\n" + tpl.guideTitle + ":\n" + guide + "\n\n---\n\n", |tpl.intro| + 1)
  {
    var section := "\n\n" + tpl.guideTitle + ":\n" + guide + "\n\n---\n\n";
    var p := Prompt(tpl, Some(guide), text);
    var pre := tpl.intro + "\n";
    var post := "\n" + tpl.instructions + text;
    assert p == pre + section + post;
    assert p[|pre|..|pre| + |section|] == section;
  }

  /** The same template and guide never give the same prompt for two articles. */
  lemma PromptDeterminesText(tpl: Template, guide: Option<string>, a: string, b: string)
    requires Prompt(tpl, guide, a) == Prompt(tpl, guide, b)
    ensures a == b
  {
    var head := tpl.intro + "\n" + GuideSection(tpl.guideTitle, guide) + "\n" + tpl.instructions;
    assert Prompt(tpl, guide, a) == head + a && Prompt(tpl, guide, b) == head + b;
    assert a == (head + a)[|head|..];
    assert b == (head + b)[|head|..];
  }

  const HeadlineTemplate := Template(
    "You are an expert editor for Persuasion, a magazine focused on defending liberal democracy and promoting open debate.",
    "Style Guide for Headlines",
    "Generate 3 compelling headline and dek (subheadline) pairs for this article. Each pair should:\n"
    + "- Capture the essence of the article\n"
    + "- Be engaging and thought-provoking\n"
    + "- Match Persuasion's tone: intelligent, accessible, principled\n"
    + "\n"
    + "Format your response as JSON:\n"
    + "{\n"
    + "  \"suggestions\": [\n"
    + "    { \"headline\": \"...\", \"dek\": \"...\" },\n"
    + "    { \"headline\": \"...\", \"dek\": \"...\" },\n"
    + "    { \"headline\": \"...\", \"dek\": \"...\" }\n"
    + "  ]\n"
    + "}\n"
    + "\n"
    + "Article:\n")

  /** The three platforms the social task writes for, in request order. */
  datatype Platform = Substack | Twitter | Instagram

  const Platforms: seq<Platform> := [Substack, Twitter, Instagram]

  function PlatformName(p: Platform): string {
    match p
    case Substack => "substack"
    case Twitter => "twitter"
    case Instagram => "instagram"
  }

  function PlatformInstructions(p: Platform): string {
    match p
    case Substack =>
      "Substack Notes: Can be longer (up to 500 chars), include context, can reference the article directly. NEVER use hashtags."
    case Twitter =>
      "Twitter/X: Maximum 280 characters. Punchy, engaging. NEVER use hashtags - they look desperate and reduce engagement."
    case Instagram =>
      "Instagram: Caption style, can be slightly longer, emoji-friendly, engaging hook. Minimal hashtags only if truly necessary."
  }

  /** The fixed text around the platform's name and guidelines. */
  datatype SocialWording = SocialWording(lead: string, middle: string, tail: string)

  const SocialText := SocialWording(
    "Generate 3 social media posts for ",
    " promoting this article.\n\nPlatform guidelines: ",
    "\n"
    + "\n"
    + "Format your response as JSON:\n"
    + "{\n"
    + "  \"suggestions\": [\"post 1\", \"post 2\", \"post 3\"]\n"
    + "}\n"
    + "\n"
    + "Article:\n")

  /** The social instructions interpolate the platform's name and its guidelines. */
  function SocialInstructions(w: SocialWording, name: string, guidelines: string): (r: string)
    ensures OccursAt(r, name, |w.lead|)
    ensures OccursAt(r, guidelines, |w.lead| + |name| + |w.middle|)
  {
    var r := w.lead + name + w.middle + guidelines + w.tail;
    InfixAt(w.lead, name, w.middle + guidelines + w.tail);
    InfixAt(w.lead + name + w.middle, guidelines, w.tail);
    assert r == w.lead + name + (w.middle + guidelines + w.tail);
    r
  }

  lemma InfixAt(a: string, b: string, c: string)
    ensures OccursAt(a + b + c, b, |a|)
  {
    assert (a + b + c)[|a|..|a| + |b|] == b;
  }

  function SocialTemplate(p: Platform): Template {
    Template(
      "You are a social media manager for Persuasion, a magazine focused on defending liberal democracy.",
      "Style Guide for Social Media",
      SocialInstructions(SocialText, PlatformName(p), PlatformInstructions(p)))
  }

  const CopyEditTemplate := Template(
    "You are an expert copy editor for Persuasion magazine.",
    "Copy-Editing Style Guide",
    "Review this article for:\n"
    + "- Spelling and grammar errors\n"
    + "- Punctuation issues\n"
    + "- Awkward phrasing\n"
    + "- Clarity problems\n"
    + "- Style inconsistencies\n"
    + "- Factual inconsistencies within the text\n"
    + "\n"
    + "For each issue you find, mark ONLY the problematic text using this exact format:\n"
    + "[[ISSUE: problematic text here]]\n"
    + "\n"
    + "Do NOT include the fix in the marked text - just highlight what needs attention.\n"
    + "\n"
    + "After the complete article, add a section starting with \"---ISSUES---\" followed by a numbered list of all issues in this format:\n"
    + "1. \"problematic text\" -> \"suggested fix\" (reason)\n"
    + "2. \"problematic text\" -> \"suggested fix\" (reason)\n"
    + "\n"
    + "Output the COMPLETE article with issues marked, then the issues list.\n"
    + "\n"
    + "Article to edit:\n")

  const FactCheckTemplate := Template(
    "You are a fact-checker for Persuasion magazine.",
    "Fact-Checking Guidelines",
    "Review this article and verify factual claims. For each significant claim:\n"
    + "\n"
    + "1. If VERIFIED (you're confident it's accurate based on established facts):\n"
    + "   [[VERIFIED: the claim text]]\n"
    + "\n"
    + "2. If QUESTIONABLE (uncertain, needs source, or partially accurate):\n"
    + "   [[QUESTIONABLE: the claim text | your concern or what needs verification]]\n"
    + "\n"
    + "3. If INCORRECT (demonstrably wrong based on established facts):\n"
    + "   [[INCORRECT: the claim text | the correction with accurate information]]\n"
    + "\n"
    + "4. If TIME-SENSITIVE (requires current data you don't have - recent statistics, current officeholders, ongoing events, recent developments):\n"
    + "   [[CHECK_CURRENT: the claim text | what specifically needs to be verified with current sources]]\n"
    + "\n"
    + "IMPORTANT: Your knowledge has a cutoff date. For any claims about:\n"
    + "- Current statistics or polls\n"
    + "- Who currently holds office or positions\n"
    + "- Recent events (within the last year)\n"
    + "- Ongoing situations that may have changed\n"
    + "- Recent legislation or policy changes\n"
    + "You MUST mark these as CHECK_CURRENT rather than VERIFIED, even if they match your training data.\n"
    + "\n"
    + "Focus on:\n"
    + "- Statistics and numbers\n"
    + "- Historical facts\n"
    + "- Quotes and attributions\n"
    + "- Scientific claims\n"
    + "- Named events or policies\n"
    + "- Current affairs and recent developments\n"
    + "\n"
    + "Output the COMPLETE article with claims marked. Not every sentence needs marking - only factual claims that can be verified.\n"
    + "After the article, do not add any additional commentary.\n"
    + "\n"
    + "Article to fact-check:\n")
}
