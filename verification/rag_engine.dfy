/**
 * Curriculum retrieval for prompt augmentation: grade normalisation, keyword
 * extraction and the assembly of a context string from a subject's
 * curriculum. The curriculum is given as a value rather than read from its
 * JSON file.
 */
module RagEngine {
  import opened Wrappers
  import opened PyStr

  // ---------------------------------------------------------------------------
  // normalize_grade
  // ---------------------------------------------------------------------------

  /** The grade text with every "grade", "th", "rd", "nd" and "st" removed, in
      that order. */
  function StripOrdinalWords(g: string): string {
    Replace(Replace(Replace(Replace(Replace(g, "grade", ""), "th", ""), "rd", ""), "nd", ""), "st", "")
  }

  predicate IsKindergarten(g: string) { g == "k" || g == "kindergarten" }

  predicate IsAlgebraOne(g: string) { g == "algebra 1" || g == "algebra1" || g == "algebra" }

  /** The key under which the curriculum files the grade. */
  function NormalizeGrade(grade: string): string {
    var g := Lower(Strip(grade));
    if IsKindergarten(g) then "K"
    else if IsAlgebraOne(g) then "Algebra 1"
    else match ParseInt(Strip(StripOrdinalWords(g)))
      case Some(n) => IntToString(n)
      case None => Title(g)
  }

  /** "k" and "kindergarten", in any case and with surrounding whitespace, name
      kindergarten. */
  lemma NormalizeGradeKindergarten(pre: string, s: string, post: string)
    requires forall c | c in pre :: IsSpace(c)
    requires forall c | c in post :: IsSpace(c)
    requires Unpadded(s) && IsKindergarten(Lower(s))
    ensures NormalizeGrade(pre + s + post) == "K"
  {
    StripPadded(pre, s, post);
  }

  /** "algebra 1", "algebra1" and "algebra", in any case and with surrounding
      whitespace, all name Algebra 1. */
  lemma NormalizeGradeAlgebra(pre: string, s: string, post: string)
    requires forall c | c in pre :: IsSpace(c)
    requires forall c | c in post :: IsSpace(c)
    requires Unpadded(s) && IsAlgebraOne(Lower(s))
    ensures NormalizeGrade(pre + s + post) == "Algebra 1"
  {
    StripPadded(pre, s, post);
  }

  /** When what is left after removing the ordinal words is an integer, the
      grade is that integer's canonical decimal form, which reads back as the
      same integer and carries no sign or leading zero unless it is negative
      or zero. */
  lemma NormalizeGradeNumeric(grade: string, n: int)
    requires var g := Lower(Strip(grade));
      !IsKindergarten(g) && !IsAlgebraOne(g) && ParseInt(Strip(StripOrdinalWords(g))) == Some(n)
    ensures NormalizeGrade(grade) == IntToString(n)
    ensures ParseInt(NormalizeGrade(grade)) == Some(n)
    ensures n >= 0 ==> AllDigits(NormalizeGrade(grade)) && (NormalizeGrade(grade)[0] == '0' ==> NormalizeGrade(grade) == "0")
  {
    IntToStringRoundTrip(n);
  }

  /** Digits followed by an ordinal suffix ("4th", "21st", "2nd", "3rd") name
      the grade by its number alone. */
  lemma NormalizeGradeOrdinal(n: nat, suffix: string)
    requires suffix in ["th", "st", "nd", "rd"]
    ensures NormalizeGrade(NatToString(n) + suffix) == NatToString(n)
  {
    var d := NatToString(n);
    var g := d + suffix;
    assert Lower(Strip(g)) == g by { LowerOrdinal(d, suffix); }
    assert !IsKindergarten(g) && !IsAlgebraOne(g) by { NotNamedGrade(g); }
    assert ParseInt(Strip(StripOrdinalWords(g))) == Some(n) by {
      StripOrdinalWordsOrdinal(d, suffix);
      StripDigits(d);
      IntToStringRoundTrip(n);
    }
    NormalizeGradeNumeric(g, n);
  }

  lemma StripDigits(d: string)
    requires AllDigits(d) && d != []
    ensures Strip(d) == d
  {
    assert IsDigit(d[0]) && IsDigit(d[|d| - 1]);
    StripUnpadded(d);
  }

  lemma OrdinalSuffixLower(suffix: string)
    requires suffix in ["th", "st", "nd", "rd"]
    ensures |suffix| == 2 && IsLower(suffix[0]) && IsLower(suffix[1])
    ensures Lower(suffix) == suffix
  {
    assert |suffix| == 2 && IsLower(suffix[0]) && IsLower(suffix[1]);
    assert forall c | c in suffix :: !IsUpper(c);
    LowerOfLower(suffix);
  }

  lemma LowerOrdinal(d: string, suffix: string)
    requires AllDigits(d) && d != [] && suffix in ["th", "st", "nd", "rd"]
    ensures Lower(Strip(d + suffix)) == d + suffix
  {
    var s := d + suffix;
    OrdinalSuffixLower(suffix);
    assert Unpadded(s) by { assert s[0] == d[0] && s[|s| - 1] == suffix[1]; }
    StripUnpadded(s);
    LowerAppend(d, suffix);
    LowerDigits(d);
  }

  lemma StripOrdinalWordsOrdinal(d: string, suffix: string)
    requires AllDigits(d) && suffix in ["th", "st", "nd", "rd"]
    ensures StripOrdinalWords(d + suffix) == d
  {
    var s := d + suffix;
    DigitsLack(d, 'g'); DigitsLack(d, 'h'); DigitsLack(d, 'r');
    DigitsLack(d, 'n'); DigitsLack(d, 's'); DigitsLack(d, 't');
    ReplaceAbsent(s, "grade", "", 0);
    if suffix == "th" {
      ReplaceTrailing(d, "th", "");
      assert d + "" == d;
      ReplaceAbsent(d, "rd", "", 0); ReplaceAbsent(d, "nd", "", 0); ReplaceAbsent(d, "st", "", 0);
    } else if suffix == "rd" {
      ReplaceAbsent(s, "th", "", 0);
      ReplaceTrailing(d, "rd", "");
      assert d + "" == d;
      ReplaceAbsent(d, "nd", "", 0); ReplaceAbsent(d, "st", "", 0);
    } else if suffix == "nd" {
      ReplaceAbsent(s, "th", "", 0); ReplaceAbsent(s, "rd", "", 0);
      ReplaceTrailing(d, "nd", "");
      assert d + "" == d;
      ReplaceAbsent(d, "st", "", 0);
    } else {
      ReplaceAbsent(s, "th", "", 1); ReplaceAbsent(s, "rd", "", 0); ReplaceAbsent(s, "nd", "", 0);
      ReplaceTrailing(d, "st", "");
      assert d + "" == d;
    }
  }

  /** A lower-cased grade that starts with neither 'k' nor 'a' is not one of
      the named grades. */
  lemma NotNamedGrade(g: string)
    requires g != [] && g[0] != 'k' && g[0] != 'a'
    ensures !IsKindergarten(g) && !IsAlgebraOne(g)
  {
    assert "k"[0] == 'k' && "kindergarten"[0] == 'k';
    assert "algebra 1"[0] == 'a' && "algebra1"[0] == 'a' && "algebra"[0] == 'a';
  }

  lemma LowerDigits(d: string)
    requires AllDigits(d)
    ensures Lower(d) == d
  {
    forall c | c in d ensures !IsUpper(c) { var i :| 0 <= i < |d| && d[i] == c; }
    LowerOfLower(d);
  }

  lemma LowerGradePrefix()
    ensures Lower("Grade ") == "grade "
  {
  }

  lemma LowerGradeWord(d: string)
    requires AllDigits(d) && d != []
    ensures Lower(Strip("Grade " + d)) == "grade " + d
  {
    var s := "Grade " + d;
    assert Unpadded(s) by { assert s[0] == 'G' && s[|s| - 1] == d[|d| - 1]; }
    StripUnpadded(s);
    LowerAppend("Grade ", d);
    LowerGradePrefix();
    LowerDigits(d);
  }

  lemma StripLeadingBlank(d: string)
    requires AllDigits(d)
    ensures Strip(" " + d) == d
  {
    StripPadded(" ", d, "");
    assert " " + d + "" == " " + d;
  }

  /** "Grade " followed by digits names the grade by its number alone. */
  lemma NormalizeGradeWord(n: nat)
    ensures NormalizeGrade("Grade " + NatToString(n)) == NatToString(n)
  {
    var d := NatToString(n);
    var g := "grade " + d;
    assert Lower(Strip("Grade " + d)) == g by { LowerGradeWord(d); }
    assert !IsKindergarten(g) && !IsAlgebraOne(g) by { NotNamedGrade(g); }
    assert ParseInt(Strip(StripOrdinalWords(g))) == Some(n) by {
      StripOrdinalWordsGrade(d);
      StripLeadingBlank(d);
      IntToStringRoundTrip(n);
    }
    NormalizeGradeNumeric("Grade " + d, n);
  }

  lemma StripOrdinalWordsGrade(d: string)
    requires AllDigits(d)
    ensures StripOrdinalWords("grade " + d) == " " + d
  {
    var t := " " + d;
    DigitsLack(d, 'g'); DigitsLack(d, 'r');
    DigitsLack(d, 'n'); DigitsLack(d, 's'); DigitsLack(d, 't');
    assert "grade " + d == "grade" + t;
    ReplaceLeading("grade", t, "");
    ReplaceAbsent(t, "grade", "", 0);
    assert "" + t == t;
    ReplaceAbsent(t, "th", "", 0);
    ReplaceAbsent(t, "rd", "", 0);
    ReplaceAbsent(t, "nd", "", 0);
    ReplaceAbsent(t, "st", "", 0);
  }

  lemma StripOrdinalWordsFirst()
    ensures StripOrdinalWords("first") == "fir"
  {
    var g := "first";
    ReplaceAbsent(g, "grade", "", 0);
    ReplaceAbsent(g, "th", "", 1);
    ReplaceAbsent(g, "rd", "", 1);
    ReplaceAbsent(g, "nd", "", 0);
    assert g == "fir" + "st";
    ReplaceTrailing("fir", "st", "");
    assert "fir" + "" == "fir";
  }

  lemma TitleFirst()
    ensures Title("first") == "First"
  {
    var t := Title("first");
    assert t[0] == 'F' && t[1] == 'i' && t[2] == 'r' && t[3] == 's' && t[4] == 't';
  }

  lemma LowerStripFirst()
    ensures Lower(Strip("  FIRST ")) == "first"
  {
    StripPadded("  ", "FIRST", " ");
    assert "  " + "FIRST" + " " == "  FIRST ";
    assert Lower("FIRST") == "first";
  }

  lemma FirIsNoNumber()
    ensures ParseInt(Strip("fir")) == None
  {
    StripUnpadded("fir");
    assert !IsDecimalLiteral("fir") by { assert !IsDigit("fir"[0]); }
  }

  /** When the grade names neither kindergarten nor Algebra 1 and no integer is
      left once the ordinal words are removed, the key is the title-cased form
      of the whole stripped, lower-cased input, not of the shortened text: it
      differs from that input only in the case of its letters. */
  lemma NormalizeGradeFallback(grade: string)
    requires var g := Lower(Strip(grade));
      !IsKindergarten(g) && !IsAlgebraOne(g) && ParseInt(Strip(StripOrdinalWords(g))).None?
    ensures NormalizeGrade(grade) == Title(Lower(Strip(grade)))
    ensures Lower(NormalizeGrade(grade)) == Lower(Strip(grade))
  {
    var g := Lower(Strip(grade));
    LowerTitle(g);
    LowerIdempotent(Strip(grade));
  }

  /** An instance of the fallback: "first" stays "First" although removing
      "st" would leave "fir". */
  lemma NormalizeGradeWordFallback()
    ensures NormalizeGrade("  FIRST ") == "First"
  {
    LowerStripFirst();
    NotNamedGrade("first");
    StripOrdinalWordsFirst();
    FirIsNoNumber();
    NormalizeGradeFallback("  FIRST ");
    TitleFirst();
  }

  // ---------------------------------------------------------------------------
  // extract_keywords
  // ---------------------------------------------------------------------------

  const StopWords: set<string> := {
    "for", "the", "and", "with", "to", "a", "an", "in", "on", "of",
    "grade", "practice", "worksheet", "problems", "questions", "help",
    "learn", "study", "basic", "advanced", "simple", "hard", "easy"
  }

  predicate IsKeyword(w: string) {
    w !in StopWords && |w| > 2
  }

  /** The prompt lower-cased, with commas and periods turned into spaces, so
      that they separate words. */
  function PromptText(prompt: string): (t: string)
    ensures forall c | c in t :: !IsUpper(c) && c != ',' && c != '.'
    ensures t == seq(|prompt|, i requires 0 <= i < |prompt| =>
      if LowerChar(prompt[i]) == ',' || LowerChar(prompt[i]) == '.' then ' ' else LowerChar(prompt[i]))
  {
    var lowered := Lower(prompt);
    var noCommas := Replace(lowered, ",", " ");
    ReplaceChars(lowered, ",", " ");
    ReplaceEliminates(lowered, ",", " ");
    ReplaceCharwise(lowered, ',', ' ');
    var t := Replace(noCommas, ".", " ");
    ReplaceChars(noCommas, ".", " ");
    ReplaceEliminates(noCommas, ".", " ");
    ReplaceCharwise(noCommas, '.', ' ');
    t
  }

  /** Keywords are drawn from the prompt's words: each is lower-case, longer
      than two characters, not a stop word, and holds no whitespace, comma or
      period. */
  function ExtractKeywords(prompt: string): (r: seq<string>)
    ensures forall w | w in r :: IsKeyword(w) && w in Words(PromptText(prompt))
    ensures forall w | w in r :: forall c | c in w :: !IsUpper(c) && !IsSpace(c) && c != ',' && c != '.'
  {
    Filter(Words(PromptText(prompt)), IsKeyword)
  }

  /** The keywords are exactly the qualifying words, each kept as often as it
      occurs and in the order the prompt gives them. */
  lemma ExtractKeywordsComplete(prompt: string, w: string)
    ensures IsSubsequence(ExtractKeywords(prompt), Words(PromptText(prompt)))
    ensures w in ExtractKeywords(prompt) <==> w in Words(PromptText(prompt)) && IsKeyword(w)
    ensures IsKeyword(w) ==> multiset(ExtractKeywords(prompt))[w] == multiset(Words(PromptText(prompt)))[w]
  {
    var ws := Words(PromptText(prompt));
    FilterInOrder(ws, IsKeyword);
    FilterMember(ws, IsKeyword, w);
    if IsKeyword(w) {
      FilterCount(ws, IsKeyword, w);
    }
  }

  // ---------------------------------------------------------------------------
  // get_curriculum_context
  // ---------------------------------------------------------------------------

  /** One entry of a grade's "topics" list. */
  datatype Topic = Topic(name: Option<string>, standards: Option<seq<string>>)

  /** The record of one grade; `otherKeys` says whether it has keys besides the
      four that are read. */
  datatype GradeData = GradeData(
    overview: Option<string>,
    topics: Option<seq<Topic>>,
    vocabularyLevel: Option<string>,
    difficultyGuidelines: Option<string>,
    otherKeys: bool)
  {
    /** The dictionary has no key at all (`not grade_data`). */
    predicate IsEmpty() {
      overview.None? && topics.None? && vocabularyLevel.None? && difficultyGuidelines.None? && !otherKeys
    }
  }

  /** A subject's curriculum file; `otherKeys` says whether it has keys besides
      "grades". */
  datatype Curriculum = Curriculum(grades: Option<map<string, GradeData>>, otherKeys: bool)
  {
    /** The file was missing or held an empty object (`not curriculum`). */
    predicate IsEmpty() {
      grades.None? && !otherKeys
    }
  }

  /** `curriculum.get("grades", {}).get(grade)`, None for the `{}` default. */
  function GradeDataFor(c: Curriculum, grade: string): Option<GradeData> {
    match c.grades
    case None => None
    case Some(m) => if grade in m then Some(m[grade]) else None
  }

  /** The keyword list that filters topics: none given and an empty list are
      alike. */
  function ActiveKeywords(topicKeywords: Option<seq<string>>): seq<string> {
    topicKeywords.GetOr([])
  }

  /** `any(kw.lower() in name.lower() for kw in keywords)` */
  predicate MatchesKeywords(name: string, keywords: seq<string>) {
    keywords != [] && (Contains(Lower(name), Lower(keywords[0])) || MatchesKeywords(name, keywords[1..]))
  }

  /** Some keyword is, ignoring case, a substring of the topic name. */
  lemma {:induction false} MatchesKeywordsIff(name: string, keywords: seq<string>)
    ensures MatchesKeywords(name, keywords) <==> exists k | k in keywords :: Contains(Lower(name), Lower(k))
  {
    if keywords != [] {
      MatchesKeywordsIff(name, keywords[1..]);
      assert forall k | k in keywords :: k == keywords[0] || k in keywords[1..];
    }
  }

  predicate Included(t: Topic, keywords: seq<string>) {
    keywords == [] || MatchesKeywords(t.name.GetOr(""), keywords)
  }

  /** The included topics, in their original order. */
  function SelectedTopics(ts: seq<Topic>, keywords: seq<string>): seq<Topic> {
    Filter(ts, (t: Topic) => Included(t, keywords))
  }

  lemma SelectedTopicsSnoc(ts: seq<Topic>, t: Topic, keywords: seq<string>)
    ensures SelectedTopics(ts + [t], keywords) ==
      SelectedTopics(ts, keywords) + (if Included(t, keywords) then [t] else [])
  {
    FilterSnoc(ts, t, (t: Topic) => Included(t, keywords));
  }

  /** The standards listed under a topic: the first three at most. */
  function ShownStandards(t: Topic): (r: seq<string>)
    ensures |r| <= 3
    ensures t.standards.None? ==> r == []
    ensures t.standards.Some? ==> |r| <= |t.standards.value| && r == t.standards.value[..|r|]
    ensures t.standards.Some? && |r| < 3 ==> r == t.standards.value
  {
    match t.standards
    case None => []
    case Some(ss) => if |ss| <= 3 then ss else ss[..3]
  }

  /** The bullet in front of each standard: the three characters U+00E2,
      U+20AC, U+00A2, as the source file spells it. */
  const Bullet: string := "  \U{E2}\U{20AC}\U{A2} "

  /** `f"  \u00e2\u20ac\u00a2 {standard}\n"` */
  function StandardLine(standard: string): string {
    Bullet + standard + "\n"
  }

  function StandardLines(ss: seq<string>): string {
    if ss == [] then ""
    else StandardLines(ss[..|ss| - 1]) + StandardLine(ss[|ss| - 1])
  }

  /** `f"- {topic_name}\n"` */
  function TopicLine(t: Topic): string {
    "- " + t.name.GetOr("") + "\n"
  }

  function TopicBlock(t: Topic): string {
    TopicLine(t) + StandardLines(ShownStandards(t))
  }

  function TopicBlocks(ts: seq<Topic>): string {
    if ts == [] then ""
    else TopicBlocks(ts[..|ts| - 1]) + TopicBlock(ts[|ts| - 1])
  }

  const KeyTopicsHeading: string := "KEY TOPICS:\n"

  function OverviewPart(g: string, overview: string): string {
    "GRADE " + g + " OVERVIEW:\n" + overview
  }

  function TopicsPart(ts: seq<Topic>, keywords: seq<string>): string {
    KeyTopicsHeading + TopicBlocks(SelectedTopics(ts, keywords))
  }

  function VocabularyPart(v: string): string {
    "VOCABULARY LEVEL: " + v
  }

  function DifficultyPart(d: string): string {
    "DIFFICULTY GUIDELINES:\n" + d
  }

  /** The sections present in the grade's record, in the fixed order overview,
      topics, vocabulary, difficulty. */
  function ContextParts(gd: GradeData, g: string, keywords: seq<string>): seq<string> {
    (if gd.overview.Some? then [OverviewPart(g, gd.overview.value)] else [])
    + (if gd.topics.Some? then [TopicsPart(gd.topics.value, keywords)] else [])
    + (if gd.vocabularyLevel.Some? then [VocabularyPart(gd.vocabularyLevel.value)] else [])
    + (if gd.difficultyGuidelines.Some? then [DifficultyPart(gd.difficultyGuidelines.value)] else [])
  }

  function FallbackContext(subject: string, grade: string): string {
    "Use age-appropriate " + subject + " content for grade " + grade + "."
  }

  /** The context string for a subject's curriculum, grade and keyword list. */
  function CurriculumContext(subject: string, grade: string, topicKeywords: Option<seq<string>>, c: Curriculum): string {
    if c.IsEmpty() then ""
    else
      var g := NormalizeGrade(grade);
      match GradeDataFor(c, g)
      case None => FallbackContext(subject, grade)
      case Some(gd) =>
        if gd.IsEmpty() then FallbackContext(subject, grade)
        else JoinWith("\n\n", ContextParts(gd, g, ActiveKeywords(topicKeywords)))
  }

  function Count(b: bool): nat { if b then 1 else 0 }

  /** Each section present sits at the position the fixed order gives it, and
      there are no others. */
  lemma ContextPartsLayout(gd: GradeData, g: string, keywords: seq<string>)
    ensures var parts := ContextParts(gd, g, keywords);
      var o := Count(gd.overview.Some?);
      var t := o + Count(gd.topics.Some?);
      var v := t + Count(gd.vocabularyLevel.Some?);
      && |parts| == v + Count(gd.difficultyGuidelines.Some?)
      && (gd.overview.Some? ==> parts[0] == OverviewPart(g, gd.overview.value))
      && (gd.topics.Some? ==> parts[o] == TopicsPart(gd.topics.value, keywords))
      && (gd.vocabularyLevel.Some? ==> parts[t] == VocabularyPart(gd.vocabularyLevel.value))
      && (gd.difficultyGuidelines.Some? ==> parts[v] == DifficultyPart(gd.difficultyGuidelines.value))
  {
  }

  /** The topics section is emitted, heading alone, even when the keywords
      filter out every topic. */
  lemma KeyTopicsWithoutMatches(gd: GradeData, g: string, keywords: seq<string>)
    requires gd.topics.Some? && SelectedTopics(gd.topics.value, keywords) == []
    ensures KeyTopicsHeading in ContextParts(gd, g, keywords)
  {
    ContextPartsLayout(gd, g, keywords);
    var o := Count(gd.overview.Some?);
    assert TopicBlocks([]) == "";
    assert TopicsPart(gd.topics.value, keywords) == KeyTopicsHeading + "" == KeyTopicsHeading;
    assert ContextParts(gd, g, keywords)[o] == KeyTopicsHeading;
  }

  /** A topic is listed iff no keyword was given or one of them occurs, ignoring
      case, in its name; listed topics keep their order. */
  lemma TopicListedIff(ts: seq<Topic>, keywords: seq<string>, t: Topic)
    ensures IsSubsequence(SelectedTopics(ts, keywords), ts)
    ensures t in SelectedTopics(ts, keywords) <==>
      (t in ts && (keywords == [] || exists k | k in keywords :: Contains(Lower(t.name.GetOr("")), Lower(k))))
  {
    FilterInOrder(ts, (t: Topic) => Included(t, keywords));
    FilterMember(ts, (t: Topic) => Included(t, keywords), t);
    MatchesKeywordsIff(t.name.GetOr(""), keywords);
  }

  lemma TopicBlocksSnoc(ts: seq<Topic>, t: Topic)
    ensures TopicBlocks(ts + [t]) == TopicBlocks(ts) + TopicBlock(t)
  {
    assert (ts + [t])[..|ts|] == ts;
  }

  lemma StandardLinesSnoc(ss: seq<string>, s: string)
    ensures StandardLines(ss + [s]) == StandardLines(ss) + StandardLine(s)
  {
    assert (ss + [s])[..|ss|] == ss;
  }

  lemma TopicsTextStep(topics: seq<Topic>, i: nat, keywords: seq<string>)
    requires i < |topics|
    ensures TopicBlocks(SelectedTopics(topics[..i + 1], keywords)) ==
      TopicBlocks(SelectedTopics(topics[..i], keywords)) + (if Included(topics[i], keywords) then TopicBlock(topics[i]) else "")
  {
    assert topics[..i + 1] == topics[..i] + [topics[i]];
    SelectedTopicsSnoc(topics[..i], topics[i], keywords);
    if Included(topics[i], keywords) {
      TopicBlocksSnoc(SelectedTopics(topics[..i], keywords), topics[i]);
    } else {
      assert SelectedTopics(topics[..i], keywords) + [] == SelectedTopics(topics[..i], keywords);
    }
  }

  /** One topic's lines: its name, then up to three of its standards. */
  method TopicText(topic: Topic) returns (block: string)
    ensures block == TopicBlock(topic)
  {
    block := TopicLine(topic);
    var shown := ShownStandards(topic);
    if topic.standards.Some? {
      for j := 0 to |shown|
        invariant block == TopicLine(topic) + StandardLines(shown[..j])
      {
        assert shown[..j + 1] == shown[..j] + [shown[j]];
        StandardLinesSnoc(shown[..j], shown[j]);
        block := block + StandardLine(shown[j]);
      }
      assert shown[..|shown|] == shown;
    }
  }

  lemma TopicsTextAppend(text: string, topics: seq<Topic>, i: nat, keywords: seq<string>, r: string, block: string)
    requires i < |topics| && Included(topics[i], keywords) && block == TopicBlock(topics[i])
    requires r == text + TopicBlocks(SelectedTopics(topics[..i], keywords))
    ensures r + block == text + TopicBlocks(SelectedTopics(topics[..i + 1], keywords))
  {
    TopicsTextStep(topics, i, keywords);
  }

  lemma TopicsTextSkip(text: string, topics: seq<Topic>, i: nat, keywords: seq<string>, r: string)
    requires i < |topics| && !Included(topics[i], keywords)
    requires r == text + TopicBlocks(SelectedTopics(topics[..i], keywords))
    ensures r == text + TopicBlocks(SelectedTopics(topics[..i + 1], keywords))
  {
    TopicsTextStep(topics, i, keywords);
  }

  /** The "KEY TOPICS" text: the heading, then one block per included topic,
      in order. */
  method TopicsText(topics: seq<Topic>, keywords: seq<string>) returns (topicsText: string)
    ensures topicsText == TopicsPart(topics, keywords)
  {
    topicsText := KeyTopicsHeading;
    for i := 0 to |topics|
      invariant topicsText == KeyTopicsHeading + TopicBlocks(SelectedTopics(topics[..i], keywords))
    {
      var topic := topics[i];
      if !Included(topic, keywords) {
        TopicsTextSkip(KeyTopicsHeading, topics, i, keywords, topicsText);
        continue;
      }
      var block := TopicText(topic);
      TopicsTextAppend(KeyTopicsHeading, topics, i, keywords, topicsText, block);
      topicsText := topicsText + block;
    }
    assert topics[..|topics|] == topics;
  }

  /** The sections of a grade's record joined by blank lines; the list of
      parts grows section by section in the fixed order. */
  method GradeContext(gradeData: GradeData, normalized: string, keywords: seq<string>) returns (context: string)
    ensures context == JoinWith("\n\n", ContextParts(gradeData, normalized, keywords))
  {
    var parts: seq<string> := [];
    ghost var o := if gradeData.overview.Some? then [OverviewPart(normalized, gradeData.overview.value)] else [];
    ghost var t := if gradeData.topics.Some? then [TopicsPart(gradeData.topics.value, keywords)] else [];
    ghost var v := if gradeData.vocabularyLevel.Some? then [VocabularyPart(gradeData.vocabularyLevel.value)] else [];
    ghost var d := if gradeData.difficultyGuidelines.Some? then [DifficultyPart(gradeData.difficultyGuidelines.value)] else [];
    if gradeData.overview.Some? {
      parts := parts + [OverviewPart(normalized, gradeData.overview.value)];
    }
    assert parts == o;
    if gradeData.topics.Some? {
      var topicsText := TopicsText(gradeData.topics.value, keywords);
      parts := parts + [topicsText];
    }
    assert parts == o + t;
    if gradeData.vocabularyLevel.Some? {
      parts := parts + [VocabularyPart(gradeData.vocabularyLevel.value)];
    }
    assert parts == o + t + v;
    if gradeData.difficultyGuidelines.Some? {
      parts := parts + [DifficultyPart(gradeData.difficultyGuidelines.value)];
    }
    assert parts == o + t + v + d;
    context := JoinWith("\n\n", parts);
  }

  /** `get_curriculum_context`: no curriculum gives no context, an unknown or
      empty grade gives the generic instruction, and otherwise the grade's
      sections are joined. */
  method GetCurriculumContext(subject: string, grade: string, topicKeywords: Option<seq<string>>, curriculum: Curriculum)
    returns (context: string)
    ensures context == CurriculumContext(subject, grade, topicKeywords, curriculum)
    ensures curriculum.IsEmpty() ==> context == ""
    ensures !curriculum.IsEmpty() && GradeDataFor(curriculum, NormalizeGrade(grade)).None? ==>
      context == FallbackContext(subject, grade)
  {
    if curriculum.IsEmpty() {
      return "";
    }
    var normalized := NormalizeGrade(grade);
    var found := GradeDataFor(curriculum, normalized);
    if found.None? || found.value.IsEmpty() {
      return FallbackContext(subject, grade);
    }
    context := GradeContext(found.value, normalized, ActiveKeywords(topicKeywords));
  }

  /** `get_augmented_context`: keywords from the prompt filter the topics, and
      a prompt without keywords applies no filter at all. */
  method GetAugmentedContext(prompt: string, subject: string, grade: string, curriculum: Curriculum)
    returns (context: string)
    ensures var keywords := ExtractKeywords(prompt);
      context == CurriculumContext(subject, grade, if keywords == [] then None else Some(keywords), curriculum)
    ensures ExtractKeywords(prompt) == [] ==> context == CurriculumContext(subject, grade, None, curriculum)
  {
    var keywords := ExtractKeywords(prompt);
    context := GetCurriculumContext(subject, grade, if keywords != [] then Some(keywords) else None, curriculum);
  }

  /** An empty keyword list filters nothing, exactly as no list at all. */
  lemma EmptyKeywordsNoFilter(subject: string, grade: string, c: Curriculum)
    ensures CurriculumContext(subject, grade, Some([]), c) == CurriculumContext(subject, grade, None, c)
  {
  }
}
