/**
 * Worksheet document assembly: the content record becomes an ordered list of
 * document elements (paragraphs with a style, spacers, page breaks), which a
 * renderer turns into PDF bytes; and the rule by which a PDF is saved under a
 * file name with a `.pdf` extension.
 */
module PdfGenerator {
  import opened Wrappers
  import opened PyStr
  import opened Storage

  // ---------------------------------------------------------------------------
  // Data
  // ---------------------------------------------------------------------------

  /** The paragraph styles the document uses. */
  datatype Style = PdfTitle | SectionHeader | Subsection | CustomBodyText | Question | Answer

  /** A document element: a styled paragraph, a `Spacer(width, height)` or a
      page break. */
  datatype Element = Paragraph(text: string, style: Style) | Spacer(width: int, height: int) | PageBreak

  /** One worked example; either field may be missing. */
  datatype Example = Example(problem: Option<string>, solution: Option<string>)

  /** One practice question; either field may be missing. */
  datatype PracticeQuestion = PracticeQuestion(question: Option<string>, difficulty: Option<string>)

  /** The generated content record. A key that is absent is `None`. */
  datatype Content = Content(
    title: Option<string>,
    explanation: Option<string>,
    workedExamples: Option<seq<Example>>,
    practiceQuestions: Option<seq<PracticeQuestion>>,
    answerKey: Option<seq<string>>,
    error: Option<string>)

  /** A present, non-empty text (Python truthiness of a string value). */
  predicate HasText(o: Option<string>) { o.Some? && o.value != [] }

  /** A present, non-empty list (Python truthiness of a list value). */
  predicate HasItems<T>(o: Option<seq<T>>) { o.Some? && o.value != [] }

  // ---------------------------------------------------------------------------
  // Fixed texts
  // ---------------------------------------------------------------------------

  const ExplanationHeader: string := "\U{1F4D6} Concept Explanation"
  const ExamplesHeader: string := "\U{270F}\U{FE0F} Worked Examples"
  const QuestionsHeader: string := "\U{1F4DD} Practice Questions"
  const AnswerKeyHeader: string := "\U{1F511} Answer Key"
  const AnswerKeyNote: string := "<i>For teacher/tutor reference</i>"
  const UnknownDifficultyColor: string := "#6B7280"

  function DefaultTitle(subject: string, grade: string): string {
    Title(subject) + " Worksheet - Grade " + grade
  }

  function TitleText(content: Content, subject: string, grade: string): string {
    content.title.GetOr(DefaultTitle(subject, grade))
  }

  function MetaText(subject: string, grade: string, dateStr: string): string {
    "<font color='#6B7280'>Subject: " + Title(subject) + " | Grade: " + grade
      + " | Generated: " + dateStr + "</font>"
  }

  /** `f"<b>{i}.</b> "` */
  function Numbered(i: nat): string {
    "<b>" + NatToString(i) + ".</b> "
  }

  // ---------------------------------------------------------------------------
  // Explanation section
  // ---------------------------------------------------------------------------

  predicate NotBlank(p: string) { Strip(p) != [] }

  /** One body paragraph per non-blank segment, stripped, in order. */
  function ExplanationParas(segs: seq<string>): seq<Element> {
    if segs == [] then []
    else
      var last := segs[|segs| - 1];
      ExplanationParas(segs[..|segs| - 1])
        + (if NotBlank(last) then [Paragraph(Strip(last), CustomBodyText)] else [])
  }

  function ExplanationSection(content: Content): seq<Element> {
    if HasText(content.explanation) then
      [Paragraph(ExplanationHeader, SectionHeader)]
        + ExplanationParas(SplitOn(content.explanation.value, "\n\n"))
        + [Spacer(1, 15)]
    else []
  }

  // ---------------------------------------------------------------------------
  // Worked examples section
  // ---------------------------------------------------------------------------

  function SolutionText(ex: Example): string {
    "<b>Solution:</b><br/>" + Replace(ex.solution.GetOr(""), "\n", "<br/>")
  }

  /** The four elements of the i-th worked example (counting from 1). */
  function ExampleBlock(i: nat, ex: Example): seq<Element> {
    [ Paragraph("Example " + NatToString(i), Subsection),
      Paragraph("<b>Problem:</b> " + ex.problem.GetOr(""), CustomBodyText),
      Paragraph(SolutionText(ex), CustomBodyText),
      Spacer(1, 10) ]
  }

  function ExampleBlocks(exs: seq<Example>): seq<Element> {
    if exs == [] then []
    else ExampleBlocks(exs[..|exs| - 1]) + ExampleBlock(|exs|, exs[|exs| - 1])
  }

  function ExamplesSection(content: Content): seq<Element> {
    if HasItems(content.workedExamples) then
      [Paragraph(ExamplesHeader, SectionHeader)] + ExampleBlocks(content.workedExamples.value) + [Spacer(1, 15)]
    else []
  }

  // ---------------------------------------------------------------------------
  // Practice questions section
  // ---------------------------------------------------------------------------

  /** The badge colour of a difficulty, looked up on its lower-cased form. */
  function DifficultyColor(difficulty: string): string {
    var d := Lower(difficulty);
    if d == "easy" then "#10B981"
    else if d == "medium" then "#F59E0B"
    else if d == "hard" then "#EF4444"
    else UnknownDifficultyColor
  }

  function Difficulty(q: PracticeQuestion): string {
    q.difficulty.GetOr("medium")
  }

  function QuestionText(i: nat, q: PracticeQuestion): string {
    var d := Difficulty(q);
    Numbered(i) + q.question.GetOr("") + " <font color='" + DifficultyColor(d) + "'>[" + Upper(d) + "]</font>"
  }

  /** The question paragraph of the i-th question (counting from 1) and the
      space left for the student's work. */
  function QuestionBlock(i: nat, q: PracticeQuestion): seq<Element> {
    [Paragraph(QuestionText(i, q), Question), Spacer(1, 30)]
  }

  function QuestionBlocks(qs: seq<PracticeQuestion>): seq<Element> {
    if qs == [] then []
    else QuestionBlocks(qs[..|qs| - 1]) + QuestionBlock(|qs|, qs[|qs| - 1])
  }

  function QuestionsSection(content: Content): seq<Element> {
    if HasItems(content.practiceQuestions) then
      [Paragraph(QuestionsHeader, SectionHeader)] + QuestionBlocks(content.practiceQuestions.value) + [Spacer(1, 20)]
    else []
  }

  // ---------------------------------------------------------------------------
  // Answer key section
  // ---------------------------------------------------------------------------

  function AnswerLines(answers: seq<string>): seq<Element> {
    if answers == [] then []
    else
      AnswerLines(answers[..|answers| - 1])
        + [Paragraph(Numbered(|answers|) + answers[|answers| - 1], CustomBodyText)]
  }

  const AnswerKeyOpening: seq<Element> :=
    [PageBreak, Paragraph(AnswerKeyHeader, SectionHeader), Paragraph(AnswerKeyNote, Answer), Spacer(1, 10)]

  function AnswerSection(content: Content, includeAnswers: bool): seq<Element> {
    if includeAnswers && HasItems(content.answerKey) then
      AnswerKeyOpening + AnswerLines(content.answerKey.value)
    else []
  }

  // ---------------------------------------------------------------------------
  // The whole document
  // ---------------------------------------------------------------------------

  function Heading(content: Content, subject: string, grade: string, dateStr: string): seq<Element> {
    [ Paragraph(TitleText(content, subject, grade), PdfTitle),
      Paragraph(MetaText(subject, grade, dateStr), CustomBodyText),
      Spacer(1, 20) ]
  }

  /** The element list handed to the renderer. */
  function Outline(content: Content, subject: string, grade: string, includeAnswers: bool, dateStr: string): seq<Element> {
    Heading(content, subject, grade, dateStr)
      + ExplanationSection(content)
      + ExamplesSection(content)
      + QuestionsSection(content)
      + AnswerSection(content, includeAnswers)
  }

  // ---------------------------------------------------------------------------
  // Properties of the outline
  // ---------------------------------------------------------------------------

  /** The texts of the paragraphs of style `st`, in order. */
  function StyledTexts(es: seq<Element>, st: Style): seq<string> {
    if es == [] then []
    else
      var e := es[|es| - 1];
      StyledTexts(es[..|es| - 1], st) + (if e.Paragraph? && e.style == st then [e.text] else [])
  }

  lemma {:induction false} StyledTextsAppend(a: seq<Element>, b: seq<Element>, st: Style)
    ensures StyledTexts(a + b, st) == StyledTexts(a, st) + StyledTexts(b, st)
    decreases |b|
  {
    if b == [] {
      assert a + b == a;
    } else {
      var b0 := b[..|b| - 1];
      assert (a + b)[..|a + b| - 1] == a + b0;
      StyledTextsAppend(a, b0, st);
    }
  }

  /** A list with no paragraph of style `st` contributes no text of that
      style. */
  lemma {:induction false} StyledTextsNone(es: seq<Element>, st: Style)
    requires forall e | e in es :: !(e.Paragraph? && e.style == st)
    ensures StyledTexts(es, st) == []
  {
    if es != [] {
      assert forall e | e in es[..|es| - 1] :: e in es;
      StyledTextsNone(es[..|es| - 1], st);
    }
  }

  lemma StyledTextsOne(e: Element, st: Style)
    ensures StyledTexts([e], st) == if e.Paragraph? && e.style == st then [e.text] else []
  {
    assert [e][..0] == [];
  }

  /** The explanation paragraphs are exactly the non-blank segments, stripped,
      in order: a reference definition through the filtered list. */
  lemma {:induction false} ExplanationParasAreKeptSegments(segs: seq<string>)
    ensures var kept := Filter(segs, NotBlank);
      ExplanationParas(segs) == seq(|kept|, k requires 0 <= k < |kept| => Paragraph(Strip(kept[k]), CustomBodyText))
  {
    if segs != [] {
      var init := segs[..|segs| - 1];
      var last := segs[|segs| - 1];
      assert segs == init + [last];
      ExplanationParasAreKeptSegments(init);
      FilterSnoc(init, last, NotBlank);
    }
  }

  /** Every explanation paragraph is a body paragraph with non-empty text and
      no surrounding whitespace. */
  lemma {:induction false} ExplanationParasShape(segs: seq<string>)
    ensures forall e | e in ExplanationParas(segs) ::
      e.Paragraph? && e.style == CustomBodyText && e.text != [] && Unpadded(e.text)
  {
    if segs != [] {
      ExplanationParasShape(segs[..|segs| - 1]);
    }
  }

  /** Worked example i (from 1) occupies elements 4(i-1) to 4i-1 of the
      section body, labelled "Example i". */
  lemma {:induction false} ExampleBlocksLayout(exs: seq<Example>)
    ensures |ExampleBlocks(exs)| == 4 * |exs|
    ensures forall k | 0 <= k < |exs| :: ExampleBlocks(exs)[4 * k..4 * k + 4] == ExampleBlock(k + 1, exs[k])
  {
    if exs != [] {
      var init := exs[..|exs| - 1];
      ExampleBlocksLayout(init);
      var r := ExampleBlocks(exs);
      assert r == ExampleBlocks(init) + ExampleBlock(|exs|, exs[|exs| - 1]);
      forall k | 0 <= k < |exs|
        ensures r[4 * k..4 * k + 4] == ExampleBlock(k + 1, exs[k])
      {
        if k < |init| {
          assert r[4 * k..4 * k + 4] == ExampleBlocks(init)[4 * k..4 * k + 4];
        }
      }
    }
  }

  lemma {:induction false} ExampleBlocksShape(exs: seq<Example>)
    ensures forall e | e in ExampleBlocks(exs) ::
      !e.PageBreak? && (e.Paragraph? ==> e.style == Subsection || e.style == CustomBodyText)
  {
    if exs != [] {
      ExampleBlocksShape(exs[..|exs| - 1]);
    }
  }

  /** A formatted solution has no line feed left: each became `<br/>`. */
  lemma SolutionHasNoLineFeed(ex: Example)
    ensures '\n' !in SolutionText(ex)
  {
    ReplaceEliminates(ex.solution.GetOr(""), "\n", "<br/>");
  }

  /** A formatted solution is the solution's lines, in order, joined by
      `<br/>`: the lines are the pieces between its line feeds, none holds a
      line feed, and joined by line feeds they give the solution back. */
  lemma SolutionLines(ex: Example)
    ensures var sol := ex.solution.GetOr("");
      var lines := SplitOn(sol, "\n");
      && SolutionText(ex) == "<b>Solution:</b><br/>" + JoinWith("<br/>", lines)
      && JoinWith("\n", lines) == sol
      && forall l | l in lines :: '\n' !in l
  {
    var sol := ex.solution.GetOr("");
    var lines := SplitOn(sol, "\n");
    ReplaceIsJoinSplit(sol, "\n", "<br/>");
    JoinSplitOn(sol, "\n");
    SplitOnPiecesFree(sol, "\n");
    forall l | l in lines
      ensures '\n' !in l
    {
      ContainsChar(l, '\n');
    }
  }

  /** Question i (from 1) is the paragraph at 2(i-1) of the section body,
      followed by the space for the student's work. */
  lemma {:induction false} QuestionBlocksLayout(qs: seq<PracticeQuestion>)
    ensures |QuestionBlocks(qs)| == 2 * |qs|
    ensures forall k | 0 <= k < |qs| ::
      QuestionBlocks(qs)[2 * k] == Paragraph(QuestionText(k + 1, qs[k]), Question)
      && QuestionBlocks(qs)[2 * k + 1] == Spacer(1, 30)
  {
    QuestionBlocksLength(qs);
    forall k | 0 <= k < |qs|
      ensures QuestionBlocks(qs)[2 * k] == Paragraph(QuestionText(k + 1, qs[k]), Question)
      ensures QuestionBlocks(qs)[2 * k + 1] == Spacer(1, 30)
    {
      QuestionBlocksAt(qs, k);
    }
  }

  lemma {:induction false} QuestionBlocksLength(qs: seq<PracticeQuestion>)
    ensures |QuestionBlocks(qs)| == 2 * |qs|
  {
    if qs != [] {
      QuestionBlocksLength(qs[..|qs| - 1]);
    }
  }

  lemma {:induction false} QuestionBlocksAt(qs: seq<PracticeQuestion>, k: nat)
    requires k < |qs|
    ensures |QuestionBlocks(qs)| == 2 * |qs|
    ensures QuestionBlocks(qs)[2 * k] == Paragraph(QuestionText(k + 1, qs[k]), Question)
    ensures QuestionBlocks(qs)[2 * k + 1] == Spacer(1, 30)
  {
    var n := |qs| - 1;
    var init := qs[..n];
    QuestionBlocksLength(init);
    assert QuestionBlocks(qs) == QuestionBlocks(init) + QuestionBlock(|qs|, qs[n]);
    if k < n {
      QuestionBlocksAt(init, k);
      assert init[k] == qs[k];
    }
  }

  /** The question paragraphs of the section body are the questions' texts,
      one per question, numbered from 1. */
  lemma {:induction false} QuestionBlocksTexts(qs: seq<PracticeQuestion>)
    ensures |StyledTexts(QuestionBlocks(qs), Question)| == |qs|
    ensures forall k | 0 <= k < |qs| :: StyledTexts(QuestionBlocks(qs), Question)[k] == QuestionText(k + 1, qs[k])
  {
    if qs != [] {
      var init := qs[..|qs| - 1];
      var last := qs[|qs| - 1];
      assert StyledTexts(QuestionBlocks(qs), Question) == StyledTexts(QuestionBlocks(init), Question) + [QuestionText(|qs|, last)] by {
        QuestionBlockText(|qs|, last);
        StyledTextsAppend(QuestionBlocks(init), QuestionBlock(|qs|, last), Question);
      }
      QuestionBlocksTexts(init);
      forall k | 0 <= k < |qs|
        ensures StyledTexts(QuestionBlocks(qs), Question)[k] == QuestionText(k + 1, qs[k])
      {
        if k < |init| {
          assert qs[k] == init[k];
        }
      }
    }
  }

  lemma QuestionBlockText(i: nat, q: PracticeQuestion)
    ensures StyledTexts(QuestionBlock(i, q), Question) == [QuestionText(i, q)]
  {
    var p := Paragraph(QuestionText(i, q), Question);
    assert QuestionBlock(i, q) == [p] + [Spacer(1, 30)];
    StyledTextsAppend([p], [Spacer(1, 30)], Question);
    StyledTextsOne(p, Question);
    StyledTextsOne(Spacer(1, 30), Question);
  }

  lemma {:induction false} QuestionBlocksShape(qs: seq<PracticeQuestion>)
    ensures forall e | e in QuestionBlocks(qs) :: !e.PageBreak? && (e.Paragraph? ==> e.style == Question)
  {
    if qs != [] {
      QuestionBlocksShape(qs[..|qs| - 1]);
    }
  }

  /** Answer i (from 1) is paragraph i-1 of the answer lines, numbered i. */
  lemma {:induction false} AnswerLinesLayout(answers: seq<string>)
    ensures |AnswerLines(answers)| == |answers|
    ensures forall k | 0 <= k < |answers| ::
      AnswerLines(answers)[k] == Paragraph(Numbered(k + 1) + answers[k], CustomBodyText)
  {
    if answers != [] {
      AnswerLinesLayout(answers[..|answers| - 1]);
    }
  }

  lemma {:induction false} AnswerLinesShape(answers: seq<string>)
    ensures forall e | e in AnswerLines(answers) :: e.Paragraph? && e.style == CustomBodyText
  {
    if answers != [] {
      AnswerLinesShape(answers[..|answers| - 1]);
    }
  }

  /** The colour lookup ignores case. */
  lemma DifficultyColorIgnoresCase(difficulty: string)
    ensures DifficultyColor(Upper(difficulty)) == DifficultyColor(difficulty)
    ensures DifficultyColor(Lower(difficulty)) == DifficultyColor(difficulty)
  {
    LowerIdempotent(difficulty);
    forall i | 0 <= i < |difficulty|
      ensures Lower(Upper(difficulty))[i] == Lower(difficulty)[i]
    {
      LowerUpperChar(difficulty[i]);
    }
    assert Lower(Upper(difficulty)) == Lower(difficulty);
  }

  /** Exactly the three known difficulties, in any case, get a colour of their
      own; every other difficulty gets the grey one. */
  lemma DifficultyColorKnown(difficulty: string)
    ensures DifficultyColor(difficulty) != UnknownDifficultyColor <==>
      Lower(difficulty) in {"easy", "medium", "hard"}
  {
  }

  /** A question without a difficulty is shown as a medium one. */
  lemma DifficultyDefault(i: nat, q: PracticeQuestion)
    requires q.difficulty.None?
    ensures QuestionText(i, q) == Numbered(i) + q.question.GetOr("") + " <font color='#F59E0B'>[MEDIUM]</font>"
  {
    MediumCase();
  }

  lemma MediumCase()
    ensures Lower("medium") == "medium" && Upper("medium") == "MEDIUM"
  {
    LowerOfLower("medium");
    var u := Upper("medium");
    assert u[0] == 'M' && u[1] == 'E' && u[2] == 'D' && u[3] == 'I' && u[4] == 'U' && u[5] == 'M';
  }

  /** The title paragraph comes first: the content's title, or
      "{Subject} Worksheet - Grade {grade}" when it has none. The grey line
      with subject, grade and date follows, then a 20-point space. */
  lemma OutlineStartsWithTitle(content: Content, subject: string, grade: string, includeAnswers: bool, dateStr: string)
    ensures var o := Outline(content, subject, grade, includeAnswers, dateStr);
      |o| >= 3 && o[0].Paragraph? && o[0].style == PdfTitle
      && (content.title.Some? ==> o[0].text == content.title.value)
      && (content.title.None? ==> o[0].text == Title(subject) + " Worksheet - Grade " + grade)
      && o[1] == Paragraph(MetaText(subject, grade, dateStr), CustomBodyText)
      && o[2] == Spacer(1, 20)
  {
  }

  lemma ExplanationSectionShape(content: Content)
    ensures forall e | e in ExplanationSection(content) ::
      !e.PageBreak? && (e.Paragraph? ==> e.style == SectionHeader || e.style == CustomBodyText)
  {
    if HasText(content.explanation) {
      var body := ExplanationParas(SplitOn(content.explanation.value, "\n\n"));
      ExplanationParasShape(SplitOn(content.explanation.value, "\n\n"));
      InThree([Paragraph(ExplanationHeader, SectionHeader)], body, [Spacer(1, 15)]);
    }
  }

  lemma ExamplesSectionShape(content: Content)
    ensures forall e | e in ExamplesSection(content) ::
      !e.PageBreak? && (e.Paragraph? ==> e.style == SectionHeader || e.style == Subsection || e.style == CustomBodyText)
  {
    if HasItems(content.workedExamples) {
      var body := ExampleBlocks(content.workedExamples.value);
      ExampleBlocksShape(content.workedExamples.value);
      InThree([Paragraph(ExamplesHeader, SectionHeader)], body, [Spacer(1, 15)]);
    }
  }

  lemma QuestionsSectionShape(content: Content)
    ensures forall e | e in QuestionsSection(content) ::
      !e.PageBreak? && (e.Paragraph? ==> e.style == SectionHeader || e.style == Question)
  {
    if HasItems(content.practiceQuestions) {
      var body := QuestionBlocks(content.practiceQuestions.value);
      QuestionBlocksShape(content.practiceQuestions.value);
      InThree([Paragraph(QuestionsHeader, SectionHeader)], body, [Spacer(1, 20)]);
    }
  }

  lemma InThree<T>(a: seq<T>, b: seq<T>, c: seq<T>)
    ensures forall x | x in a + b + c :: x in a || x in b || x in c
  {
  }

  /** The page break is there iff answers are requested and the answer key is
      non-empty. */
  lemma PageBreakIff(content: Content, subject: string, grade: string, includeAnswers: bool, dateStr: string)
    ensures PageBreak in Outline(content, subject, grade, includeAnswers, dateStr) <==>
      includeAnswers && HasItems(content.answerKey)
  {
    ExplanationSectionShape(content);
    ExamplesSectionShape(content);
    QuestionsSectionShape(content);
    var head := Heading(content, subject, grade, dateStr);
    var ex := ExplanationSection(content);
    var we := ExamplesSection(content);
    var pq := QuestionsSection(content);
    var ak := AnswerSection(content, includeAnswers);
    assert Outline(content, subject, grade, includeAnswers, dateStr) == head + ex + we + pq + ak;
    assert PageBreak !in head;
    if includeAnswers && HasItems(content.answerKey) {
      assert ak[0] == PageBreak;
    } else {
      assert ak == [];
    }
  }

  lemma ExplanationSectionHeaders(content: Content)
    ensures StyledTexts(ExplanationSection(content), SectionHeader) ==
      if HasText(content.explanation) then [ExplanationHeader] else []
  {
    if HasText(content.explanation) {
      var body := ExplanationParas(SplitOn(content.explanation.value, "\n\n"));
      ExplanationParasShape(SplitOn(content.explanation.value, "\n\n"));
      StyledTextsNone(body, SectionHeader);
      HeaderBodyCloser([Paragraph(ExplanationHeader, SectionHeader)], body, [Spacer(1, 15)]);
    }
  }

  lemma ExamplesSectionHeaders(content: Content)
    ensures StyledTexts(ExamplesSection(content), SectionHeader) ==
      if HasItems(content.workedExamples) then [ExamplesHeader] else []
  {
    if HasItems(content.workedExamples) {
      var body := ExampleBlocks(content.workedExamples.value);
      ExampleBlocksShape(content.workedExamples.value);
      StyledTextsNone(body, SectionHeader);
      HeaderBodyCloser([Paragraph(ExamplesHeader, SectionHeader)], body, [Spacer(1, 15)]);
    }
  }

  lemma QuestionsSectionHeaders(content: Content)
    ensures StyledTexts(QuestionsSection(content), SectionHeader) ==
      if HasItems(content.practiceQuestions) then [QuestionsHeader] else []
  {
    if HasItems(content.practiceQuestions) {
      var body := QuestionBlocks(content.practiceQuestions.value);
      QuestionBlocksShape(content.practiceQuestions.value);
      StyledTextsNone(body, SectionHeader);
      HeaderBodyCloser([Paragraph(QuestionsHeader, SectionHeader)], body, [Spacer(1, 20)]);
    }
  }

  lemma AnswerSectionHeaders(content: Content, includeAnswers: bool)
    ensures StyledTexts(AnswerSection(content, includeAnswers), SectionHeader) ==
      if includeAnswers && HasItems(content.answerKey) then [AnswerKeyHeader] else []
  {
    if includeAnswers && HasItems(content.answerKey) {
      var body := AnswerLines(content.answerKey.value);
      AnswerLinesShape(content.answerKey.value);
      StyledTextsNone(body, SectionHeader);
      StyledTextsAppend(AnswerKeyOpening, body, SectionHeader);
      OpeningHeaders();
    }
  }

  lemma OpeningHeaders()
    ensures StyledTexts(AnswerKeyOpening, SectionHeader) == [AnswerKeyHeader]
  {
    var p1 := Paragraph(AnswerKeyHeader, SectionHeader);
    var p2 := Paragraph(AnswerKeyNote, Answer);
    var a := [PageBreak, p1];
    var b := [p2, Spacer(1, 10)];
    assert AnswerKeyOpening == a + b;
    StyledTextsAppend(a, b, SectionHeader);
    StyledTextsAppend([PageBreak], [p1], SectionHeader);
    assert a == [PageBreak] + [p1];
    StyledTextsAppend([p2], [Spacer(1, 10)], SectionHeader);
    assert b == [p2] + [Spacer(1, 10)];
    StyledTextsOne(PageBreak, SectionHeader);
    StyledTextsOne(p1, SectionHeader);
    StyledTextsOne(p2, SectionHeader);
    StyledTextsOne(Spacer(1, 10), SectionHeader);
  }

  /** The texts of a style other than the title's and the body's in the
      whole document are those of each section, in order. */
  lemma StyledTextsOfOutline(content: Content, subject: string, grade: string, includeAnswers: bool, dateStr: string, st: Style)
    requires st != PdfTitle && st != CustomBodyText
    ensures StyledTexts(Outline(content, subject, grade, includeAnswers, dateStr), st) ==
      StyledTexts(ExplanationSection(content), st)
      + StyledTexts(ExamplesSection(content), st)
      + StyledTexts(QuestionsSection(content), st)
      + StyledTexts(AnswerSection(content, includeAnswers), st)
  {
    var head := Heading(content, subject, grade, dateStr);
    StyledTextsOfFive(head, ExplanationSection(content),
      ExamplesSection(content), QuestionsSection(content), AnswerSection(content, includeAnswers), st);
    StyledTextsNone(head, st);
    EmptyPrefix(StyledTexts(ExplanationSection(content), st));
  }

  lemma StyledTextsOfFive(a: seq<Element>, b: seq<Element>, c: seq<Element>, d: seq<Element>, e: seq<Element>, st: Style)
    ensures StyledTexts(a + b + c + d + e, st) ==
      StyledTexts(a, st) + StyledTexts(b, st) + StyledTexts(c, st) + StyledTexts(d, st) + StyledTexts(e, st)
  {
    StyledTextsAppend(a, b, st);
    StyledTextsAppend(a + b, c, st);
    StyledTextsAppend(a + b + c, d, st);
    StyledTextsAppend(a + b + c + d, e, st);
  }

  /** The section headings appear in the fixed order explanation, worked
      examples, practice questions, answer key, each exactly when its section
      is present. */
  lemma SectionHeadersInOrder(content: Content, subject: string, grade: string, includeAnswers: bool, dateStr: string)
    ensures StyledTexts(Outline(content, subject, grade, includeAnswers, dateStr), SectionHeader) ==
      (if HasText(content.explanation) then [ExplanationHeader] else [])
      + (if HasItems(content.workedExamples) then [ExamplesHeader] else [])
      + (if HasItems(content.practiceQuestions) then [QuestionsHeader] else [])
      + (if includeAnswers && HasItems(content.answerKey) then [AnswerKeyHeader] else [])
  {
    StyledTextsOfOutline(content, subject, grade, includeAnswers, dateStr, SectionHeader);
    ExplanationSectionHeaders(content);
    ExamplesSectionHeaders(content);
    QuestionsSectionHeaders(content);
    AnswerSectionHeaders(content, includeAnswers);
  }

  lemma EmptyPrefix<T>(s: seq<T>)
    ensures [] + s == s
  {
  }

  /** A section made of one heading paragraph, a body without headings and a
      closing spacer lists that one heading. */
  lemma HeaderBodyCloser(h: seq<Element>, body: seq<Element>, closer: seq<Element>)
    requires |h| == 1 && h[0].Paragraph? && h[0].style == SectionHeader
    requires |closer| == 1 && closer[0].Spacer?
    requires StyledTexts(body, SectionHeader) == []
    ensures StyledTexts(h + body + closer, SectionHeader) == [h[0].text]
  {
    StyledTextsAppend(h, body, SectionHeader);
    StyledTextsAppend(h + body, closer, SectionHeader);
    assert h[..0] == [] && closer[..0] == [];
  }

  /** The question paragraphs of the whole document are exactly the practice
      questions, one each, numbered from 1, in order. */
  lemma QuestionParagraphs(content: Content, subject: string, grade: string, includeAnswers: bool, dateStr: string)
    ensures var qs := if HasItems(content.practiceQuestions) then content.practiceQuestions.value else [];
      var texts := StyledTexts(Outline(content, subject, grade, includeAnswers, dateStr), Question);
      |texts| == |qs| && forall k | 0 <= k < |qs| :: texts[k] == QuestionText(k + 1, qs[k])
  {
    StyledTextsOfOutline(content, subject, grade, includeAnswers, dateStr, Question);
    NoQuestionsOutside(content, includeAnswers);
    QuestionsSectionQuestions(content);
    OnlySecond(StyledTexts(ExplanationSection(content), Question), StyledTexts(ExamplesSection(content), Question),
      StyledTexts(QuestionsSection(content), Question), StyledTexts(AnswerSection(content, includeAnswers), Question));
  }

  lemma NoQuestionsOutside(content: Content, includeAnswers: bool)
    ensures StyledTexts(ExplanationSection(content), Question) == []
    ensures StyledTexts(ExamplesSection(content), Question) == []
    ensures StyledTexts(AnswerSection(content, includeAnswers), Question) == []
  {
    ExplanationSectionShape(content);
    StyledTextsNone(ExplanationSection(content), Question);
    ExamplesSectionShape(content);
    StyledTextsNone(ExamplesSection(content), Question);
    AnswerSectionShape(content, includeAnswers);
    StyledTextsNone(AnswerSection(content, includeAnswers), Question);
  }

  lemma AnswerSectionShape(content: Content, includeAnswers: bool)
    ensures forall e | e in AnswerSection(content, includeAnswers) ::
      e.Paragraph? ==> e.style in {SectionHeader, Answer, CustomBodyText}
  {
    if includeAnswers && HasItems(content.answerKey) {
      AnswerLinesShape(content.answerKey.value);
      assert forall e | e in AnswerKeyOpening + AnswerLines(content.answerKey.value) ::
        e in AnswerKeyOpening || e in AnswerLines(content.answerKey.value);
    }
  }

  lemma OnlySecond<T>(a: seq<T>, b: seq<T>, c: seq<T>, d: seq<T>)
    requires a == [] && b == [] && d == []
    ensures a + b + c + d == c
  {
  }

  lemma QuestionsSectionQuestions(content: Content)
    ensures var qs := if HasItems(content.practiceQuestions) then content.practiceQuestions.value else [];
      var texts := StyledTexts(QuestionsSection(content), Question);
      |texts| == |qs| && forall k | 0 <= k < |qs| :: texts[k] == QuestionText(k + 1, qs[k])
  {
    if HasItems(content.practiceQuestions) {
      var qs := content.practiceQuestions.value;
      var h := [Paragraph(QuestionsHeader, SectionHeader)];
      QuestionBlocksTexts(qs);
      StyledTextsAppend(h, QuestionBlocks(qs), Question);
      StyledTextsAppend(h + QuestionBlocks(qs), [Spacer(1, 20)], Question);
      StyledTextsOne(h[0], Question);
      StyledTextsOne(Spacer(1, 20), Question);
      assert StyledTexts(QuestionsSection(content), Question) == StyledTexts(QuestionBlocks(qs), Question);
    }
  }


  // ---------------------------------------------------------------------------
  // generate_pdf
  // ---------------------------------------------------------------------------

  lemma ExplanationParasStep(segs: seq<string>, i: nat)
    requires i < |segs|
    ensures ExplanationParas(segs[..i + 1]) == ExplanationParas(segs[..i])
      + (if NotBlank(segs[i]) then [Paragraph(Strip(segs[i]), CustomBodyText)] else [])
  {
    assert segs[..i + 1][..i] == segs[..i];
  }

  method ExplanationParagraphs(explanation: string) returns (paras: seq<Element>)
    ensures paras == ExplanationParas(SplitOn(explanation, "\n\n"))
  {
    var segs := SplitOn(explanation, "\n\n");
    paras := [];
    for i := 0 to |segs|
      invariant paras == ExplanationParas(segs[..i])
    {
      ExplanationParasStep(segs, i);
      if NotBlank(segs[i]) {
        paras := paras + [Paragraph(Strip(segs[i]), CustomBodyText)];
      } else {
        assert paras + [] == paras;
      }
    }
    assert segs[..|segs|] == segs;
  }

  method WorkedExampleElements(exs: seq<Example>) returns (elements: seq<Element>)
    ensures elements == ExampleBlocks(exs)
  {
    elements := [];
    for i := 0 to |exs|
      invariant elements == ExampleBlocks(exs[..i])
    {
      assert exs[..i + 1][..i] == exs[..i];
      var ex := exs[i];
      var problem := ex.problem.GetOr("");
      var solution := ex.solution.GetOr("");
      var solutionFormatted := Replace(solution, "\n", "<br/>");
      elements := elements + [Paragraph("Example " + NatToString(i + 1), Subsection)];
      elements := elements + [Paragraph("<b>Problem:</b> " + problem, CustomBodyText)];
      elements := elements + [Paragraph("<b>Solution:</b><br/>" + solutionFormatted, CustomBodyText)];
      elements := elements + [Spacer(1, 10)];
    }
    assert exs[..|exs|] == exs;
  }

  method PracticeQuestionElements(qs: seq<PracticeQuestion>) returns (elements: seq<Element>)
    ensures elements == QuestionBlocks(qs)
  {
    elements := [];
    for i := 0 to |qs|
      invariant elements == QuestionBlocks(qs[..i])
    {
      assert qs[..i + 1][..i] == qs[..i];
      var question := qs[i].question.GetOr("");
      var difficulty := qs[i].difficulty.GetOr("medium");
      var diffColor := DifficultyColor(difficulty);
      var questionText := Numbered(i + 1) + question + " <font color='" + diffColor + "'>[" + Upper(difficulty) + "]</font>";
      elements := elements + [Paragraph(questionText, Question)];
      elements := elements + [Spacer(1, 30)];
    }
    assert qs[..|qs|] == qs;
  }

  method AnswerKeyElements(answers: seq<string>) returns (elements: seq<Element>)
    ensures elements == AnswerLines(answers)
  {
    elements := [];
    for i := 0 to |answers|
      invariant elements == AnswerLines(answers[..i])
    {
      assert answers[..i + 1][..i] == answers[..i];
      elements := elements + [Paragraph(Numbered(i + 1) + answers[i], CustomBodyText)];
    }
    assert answers[..|answers|] == answers;
  }

  method ExplanationElements(content: Content) returns (section: seq<Element>)
    ensures section == ExplanationSection(content)
  {
    section := [];
    if HasText(content.explanation) {
      var paras := ExplanationParagraphs(content.explanation.value);
      section := [Paragraph(ExplanationHeader, SectionHeader)] + paras + [Spacer(1, 15)];
    }
  }

  method ExamplesElements(content: Content) returns (section: seq<Element>)
    ensures section == ExamplesSection(content)
  {
    section := [];
    if HasItems(content.workedExamples) {
      var blocks := WorkedExampleElements(content.workedExamples.value);
      section := [Paragraph(ExamplesHeader, SectionHeader)] + blocks + [Spacer(1, 15)];
    }
  }

  method QuestionsElements(content: Content) returns (section: seq<Element>)
    ensures section == QuestionsSection(content)
  {
    section := [];
    if HasItems(content.practiceQuestions) {
      var blocks := PracticeQuestionElements(content.practiceQuestions.value);
      section := [Paragraph(QuestionsHeader, SectionHeader)] + blocks + [Spacer(1, 20)];
    }
  }

  method AnswerElements(content: Content, includeAnswers: bool) returns (section: seq<Element>)
    ensures section == AnswerSection(content, includeAnswers)
  {
    section := [];
    if includeAnswers && HasItems(content.answerKey) {
      var lines := AnswerKeyElements(content.answerKey.value);
      section := [PageBreak, Paragraph(AnswerKeyHeader, SectionHeader), Paragraph(AnswerKeyNote, Answer), Spacer(1, 10)] + lines;
    }
  }

  /** `generate_pdf`: appends the heading and then each section, in the fixed
      order, to the element list and hands it to the renderer, which stands
      for the document builder. */
  method GeneratePdf(content: Content, subject: string, grade: string, includeAnswers: bool,
                     dateStr: string, render: seq<Element> -> Bytes)
    returns (pdfBytes: Bytes)
    ensures pdfBytes == render(Outline(content, subject, grade, includeAnswers, dateStr))
  {
    var title := content.title.GetOr(Title(subject) + " Worksheet - Grade " + grade);
    var metaText := "<font color='#6B7280'>Subject: " + Title(subject) + " | Grade: " + grade
      + " | Generated: " + dateStr + "</font>";
    var elements := [Paragraph(title, PdfTitle), Paragraph(metaText, CustomBodyText), Spacer(1, 20)];
    var explanation := ExplanationElements(content);
    elements := elements + explanation;
    var examples := ExamplesElements(content);
    elements := elements + examples;
    var questions := QuestionsElements(content);
    elements := elements + questions;
    var answers := AnswerElements(content, includeAnswers);
    elements := elements + answers;
    pdfBytes := render(elements);
  }

  // ---------------------------------------------------------------------------
  // save_pdf
  // ---------------------------------------------------------------------------

  /** The file name with a `.pdf` extension. */
  function WithPdfExtension(filename: string): (r: string)
    ensures EndsWith(r, ".pdf")
    ensures StartsWith(r, filename) && |r| <= |filename| + 4
    ensures EndsWith(filename, ".pdf") ==> r == filename
    ensures !EndsWith(filename, ".pdf") ==> r == filename + ".pdf"
  {
    if EndsWith(filename, ".pdf") then filename else filename + ".pdf"
  }

  /** A name that already has the extension is not given a second one. */
  lemma WithPdfExtensionIdempotent(filename: string)
    ensures WithPdfExtension(WithPdfExtension(filename)) == WithPdfExtension(filename)
  {
  }

  /** `save_pdf` into `outputDir` at time `now`: the bytes are written under the
      name with the `.pdf` extension and the path `join(outputDir, name)` is
      returned. A name containing '/' or NUL (a nested or absolute path, which
      this model does not cover) is reported as a failure carrying the path. */
  method SavePdf(pdfBytes: Bytes, filename: string, outputDir: Directory, now: int) returns (r: Result<string, string>)
    requires outputDir.Valid()
    modifies outputDir
    ensures outputDir.Valid()
    ensures var name := WithPdfExtension(filename);
      if IsPlainName(name) then
        && r == Success(JoinPath(outputDir.path, name))
        && outputDir.files == Written(old(outputDir.files), name, pdfBytes, now)
        && Lookup(outputDir.files, name) == Some(File(name, pdfBytes, now))
      else
        r == Failure(JoinPath(outputDir.path, name)) && outputDir.files == old(outputDir.files)
  {
    var name := filename;
    if !EndsWith(name, ".pdf") {
      name := name + ".pdf";
    }
    var filepath := JoinPath(outputDir.path, name);
    if !IsPlainName(name) {
      return Failure(filepath);
    }
    outputDir.Write(name, pdfBytes, now);
    r := Success(filepath);
  }
}
