# MeshMind backend: curriculum retrieval, worksheet outlines and PDF storage

MeshMind's backend turns a teacher's request ("fractions practice for grade 4")
into a printable worksheet. It has three deterministic parts, and this project
models each of them in Dafny and proves properties about it:

- **Curriculum retrieval** (`RagEngine`, from `backend/rag_engine.py`):
  - normalising a grade text ("4th", "Grade 4", " K ", "algebra");
  - drawing keywords from the prompt;
  - assembling the curriculum context for the language model from a subject's
    curriculum record. The record is a parameter here, not a JSON file.
- **Worksheet outline** (`PdfGenerator`, from `backend/pdf_generator.py`):
  - the ordered list of document elements that `generate_pdf` builds from the
    generated content (title, metadata line, explanation, worked examples,
    practice questions, answer key);
  - `save_pdf`'s rule for the extension and the path.
- **HTTP endpoints** (`Api`, from `backend/main.py`):
  - subject validation and the generation-failure check;
  - the safe title and the `"{safe_title}_{pdf_id}.pdf"` file name;
  - the `rsplit('_', 1)` parse in the listing;
  - the first-match scan behind get, get-as-base64 and delete, over a storage
    directory object. Delete removes a file from that object.

Supporting modules:

- `Wrappers` holds `Option` and `Result`.
- `PyStr` models the Python string built-ins the code relies on: `lower`,
  `upper`, `title`, `strip`, `replace`, `split`, `join`, `startswith`,
  `endswith`, `in`, `int()` and list comprehensions with a filter.
- `Storage` models the PDF directory as a class holding the files in listing
  order.

The loops of the source are methods with loop invariants. Each is proved equal
to a specification function, and the properties are proved about those
functions. Examples: `TopicsText` against `TopicsPart`, `GeneratePdf` against
`Outline`, `ListPdfs` against `Listing`, and `FindPdf` against `FirstMatching`.
The language model, the renderer, base64 encoding, the clock and the UUID
source are parameters.

## Model

| member | source | states |
|---|---|---|
| RagEngine.NormalizeGradeKindergarten | backend/rag_engine.py:27-31 | "k" and "kindergarten", in any case and with any surrounding whitespace, normalise to "K" |
| RagEngine.NormalizeGradeAlgebra | backend/rag_engine.py:27-33 | "algebra 1", "algebra1" and "algebra", in any case and padded, normalise to "Algebra 1" |
| RagEngine.NormalizeGradeNumeric | backend/rag_engine.py:36-38 | when removing grade/th/rd/nd/st leaves an integer, the result is its canonical decimal text, which parses back to it |
| RagEngine.NormalizeGradeOrdinal | backend/rag_engine.py:36-38 | digits followed by an ordinal suffix ("4th", "21st", "2nd", "3rd") normalise to the number alone |
| RagEngine.NormalizeGradeWord | backend/rag_engine.py:36-38 | "Grade n" normalises to n |
| RagEngine.NormalizeGradeFallback | backend/rag_engine.py:26-40 | for any grade that is not kindergarten or Algebra 1 and leaves no integer once the ordinal words are removed, the result is the title-cased form of the whole stripped, lower-cased input, and it differs from that input only in letter case |
| RagEngine.NormalizeGradeWordFallback | backend/rag_engine.py:39-40 | an instance of the fallback: "  FIRST " gives "First", not the suffix-stripped "Fir" |
| PyStr.WordsCoverText | backend/rag_engine.py:107 | `split()` loses only whitespace: the words, concatenated, are the text without its whitespace |
| PyStr.ReplaceCharwise | backend/rag_engine.py:107 | replacing one character by another rewrites the text position by position and leaves every other character as it is |
| RagEngine.PromptText | backend/rag_engine.py:107 | the prompt text is the prompt, lower-cased, with each comma and period turned into a space at its own position (so they separate words); it has no upper-case letter, comma or period |
| RagEngine.ExtractKeywords | backend/rag_engine.py:100-110 | every keyword is a word of the prompt text, longer than two characters, not a stop word, lower-case, with no whitespace, comma or period |
| RagEngine.ExtractKeywordsComplete | backend/rag_engine.py:103-110 | the keywords are an order-preserving subsequence of the words; a word is a keyword iff it qualifies; each qualifying word is kept as often as it occurs |
| RagEngine.MatchesKeywordsIff | backend/rag_engine.py:79-81 | a topic name matches iff some keyword is a case-insensitive substring of it |
| RagEngine.TopicListedIff | backend/rag_engine.py:76-83 | a topic is listed iff no keyword was given or one matches its name; listed topics keep their order |
| RagEngine.ShownStandards | backend/rag_engine.py:84-86 | at most the first three standards of a topic are shown, all of them when there are fewer |
| RagEngine.ContextPartsLayout | backend/rag_engine.py:66-97 | each present section sits at the position given by the fixed order overview, topics, vocabulary, difficulty, and there are no others |
| RagEngine.KeyTopicsWithoutMatches | backend/rag_engine.py:74-87 | the "KEY TOPICS" section is emitted, heading alone, when the keywords drop every topic |
| RagEngine.TopicText | backend/rag_engine.py:83-86 | the loop over one topic's standards builds its name line followed by up to three bullet lines |
| RagEngine.TopicsText | backend/rag_engine.py:74-87 | the loop over the topics, with its `continue`, builds the heading and one block per included topic, in order |
| RagEngine.GradeContext | backend/rag_engine.py:66-97 | the appended sections, joined by blank lines, are the layout above |
| RagEngine.GetCurriculumContext | backend/rag_engine.py:43-97 | an empty curriculum gives ""; an absent or empty grade record gives the "Use age-appropriate ..." sentence; otherwise the joined sections |
| RagEngine.GetAugmentedContext | backend/rag_engine.py:113-128 | the prompt's keywords filter the topics; when there are none, no filter is applied |
| RagEngine.EmptyKeywordsNoFilter | backend/rag_engine.py:125-126 | an empty keyword list and no list give the same context |
| PdfGenerator.OutlineStartsWithTitle | backend/pdf_generator.py:133-141 | the first element is the title paragraph: the content's title, or "{Subject} Worksheet - Grade {grade}"; then the metadata line with the title-cased subject, the grade and the date, then a 20-point spacer |
| PdfGenerator.ExplanationParasAreKeptSegments | backend/pdf_generator.py:146-150 | the explanation paragraphs are exactly the non-blank "\n\n" segments, stripped, in order |
| PdfGenerator.ExplanationParasShape | backend/pdf_generator.py:148-150 | every explanation paragraph is a body paragraph with non-empty text and no surrounding whitespace |
| PdfGenerator.ExplanationParagraphs | backend/pdf_generator.py:148-150 | the loop over the segments appends exactly those paragraphs |
| PdfGenerator.ExplanationElements | backend/pdf_generator.py:143-151 | the explanation section: heading, paragraphs, spacer, and only when the explanation is non-empty |
| PdfGenerator.ExampleBlocksLayout | backend/pdf_generator.py:156-166 | worked example i occupies four consecutive elements starting with the label "Example i", for i = 1, 2, ... |
| PyStr.ReplaceIsJoinSplit | backend/pdf_generator.py:164 | `s.replace(pat, rep)` equals `rep.join(s.split(pat))` for any non-empty pattern |
| PyStr.JoinSplitOn | backend/pdf_generator.py:164 | `sep.join(s.split(sep))` gives `s` back |
| PyStr.SplitOnPiecesFree | backend/pdf_generator.py:164 | no piece of `s.split(sep)` contains `sep` |
| PdfGenerator.SolutionLines | backend/pdf_generator.py:162-165 | the solution paragraph is "<b>Solution:</b><br/>" followed by the solution's lines joined by `<br/>`, where the lines hold no line feed and, joined by line feeds, give the solution back |
| PdfGenerator.SolutionHasNoLineFeed | backend/pdf_generator.py:162-165 | no line feed is left in the solution paragraph |
| PdfGenerator.WorkedExampleElements | backend/pdf_generator.py:156-166 | the loop over the examples appends exactly those blocks |
| PdfGenerator.ExamplesElements | backend/pdf_generator.py:153-167 | the worked-examples section, present only when the list is non-empty |
| PdfGenerator.DifficultyColorIgnoresCase | backend/pdf_generator.py:177-182 | the badge colour does not depend on the case of the difficulty |
| PdfGenerator.DifficultyColorKnown | backend/pdf_generator.py:177-182 | exactly easy, medium and hard, in any case, get a colour other than "#6B7280" |
| PdfGenerator.DifficultyDefault | backend/pdf_generator.py:173-184 | a question without a difficulty is shown as "[MEDIUM]" in the medium colour |
| PdfGenerator.QuestionBlocksLayout | backend/pdf_generator.py:172-188 | question i is the question paragraph at position 2(i-1) of the section body, followed by a 30-point spacer for the student's work |
| PdfGenerator.QuestionBlocksTexts | backend/pdf_generator.py:172-188 | the question paragraphs of the section body are the questions' texts, numbered from 1, in order |
| PdfGenerator.PracticeQuestionElements | backend/pdf_generator.py:172-188 | the loop over the questions appends one question paragraph and one spacer per question |
| PdfGenerator.QuestionsElements | backend/pdf_generator.py:169-189 | the practice-questions section, present only when the list is non-empty |
| PdfGenerator.QuestionParagraphs | backend/pdf_generator.py:169-189 | the whole document has exactly one question paragraph per practice question, numbered from 1, in order |
| PdfGenerator.AnswerLinesLayout | backend/pdf_generator.py:198-199 | answer i is the i-th answer paragraph, numbered i |
| PdfGenerator.AnswerKeyElements | backend/pdf_generator.py:198-199 | the loop over the answers appends exactly those paragraphs |
| PdfGenerator.AnswerElements | backend/pdf_generator.py:191-199 | the answer-key section: page break, heading, note, spacer, answers |
| PdfGenerator.PageBreakIff | backend/pdf_generator.py:191-193 | the document has a page break iff answers are requested and the answer key is non-empty |
| PdfGenerator.SectionHeadersInOrder | backend/pdf_generator.py:133-199 | the section headings appear in the fixed order explanation, worked examples, practice questions, answer key, each exactly when its section is present |
| PdfGenerator.GeneratePdf | backend/pdf_generator.py:107-208 | the bytes are the rendering of the outline, which the lemmas above describe |
| PdfGenerator.WithPdfExtension | backend/pdf_generator.py:228-230 | a name already ending in ".pdf" is kept as it is; any other name gets the whole ".pdf" appended |
| PdfGenerator.WithPdfExtensionIdempotent | backend/pdf_generator.py:228-230 | a second extension is never added |
| PdfGenerator.SavePdf | backend/pdf_generator.py:211-237 | the bytes are stored under the extended name and the returned path is join(output_dir, name); afterwards that name holds exactly these bytes and no other file changes |
| Storage.JoinPath | backend/pdf_generator.py:232 | `os.path.join` of a directory and a name ends with the name, and is directory + "/" + name in the ordinary case |
| Storage.Written | backend/pdf_generator.py:234-235 | after a write, the name holds the new file, every other name is unchanged and names stay distinct |
| Storage.Directory.Write | backend/pdf_generator.py:234-235 | writing a file updates the directory to that listing |
| Storage.Directory.Remove | backend/main.py:256 | `os.remove` drops one file and keeps the others in order |
| Api.ValidSubjectLetters | backend/main.py:117-121 | an accepted subject is four or seven letters, so any padding or other character is rejected |
| Api.ValidSubjectIgnoresCase | backend/main.py:117 | upper- and lower-case spellings of a subject are accepted alike |
| Api.SafeTitle | backend/main.py:156 | the safe title holds only letters, digits, space, '-' and '_', all taken from the title, with no surrounding whitespace |
| Api.SafeTitleKeeps | backend/main.py:156 | every letter, digit, '-' and '_' of the title survives |
| Api.SafeTitleOfSafe | backend/main.py:156 | a title that is already safe is unchanged |
| Api.SafeTitleIdempotent | backend/main.py:156 | making a title safe twice is making it safe once |
| Api.PdfIdOf | backend/main.py:154 | the identifier is the first eight characters of the UUID text: lower-case hexadecimal digits |
| Api.BuiltNameIsPlain | backend/main.py:157 | the built file name ends in ".pdf" and has no path separator or NUL |
| Api.LastIndexOf | backend/main.py:196 | the position found holds the last occurrence of the character |
| Api.ParseBuildRoundTrip | backend/main.py:196-198 | parsing a built file name gives back the title and the identifier, whatever '_' the title holds, when the identifier has no '_' or '.' |
| Api.ParseWithoutUnderscore | backend/main.py:196-198 | a name with no '_' is listed with the whole name as both title and identifier |
| Api.GeneratedFilename | backend/main.py:154-157 | a generated PDF's name is a plain ".pdf" name that parses back to its safe title and identifier |
| Api.ListingOfPdfFiles | backend/main.py:190-206 | the listing is the ".pdf" files in directory order, each turned into its entry |
| Api.ListingMembers | backend/main.py:190-206 | a stored file is listed iff its name ends in ".pdf", and every entry comes from such a file |
| Api.ListPdfs | backend/main.py:185-208 | the loop builds that listing, and the count is its length |
| Api.FirstMatching | backend/main.py:214-215 | the position found is the first whose name contains the identifier and ends in ".pdf"; with none found, no name matches |
| Api.FindPdf | backend/main.py:214-215 | the scan with early return finds exactly that first match |
| Api.FoundIff | backend/main.py:214-227 | a file is found iff some stored file matches |
| Api.GeneratedIsFound | backend/main.py:214-215 | a PDF stored under a built name is found by its identifier, at its own position or at an earlier file whose name also contains the identifier |
| Api.MatchesAnyPdf | backend/main.py:215 | the empty identifier, like ".pdf", matches exactly the ".pdf" names |
| Api.EmptyIdMatchesAnyPdf | backend/main.py:215 | the empty identifier selects the first ".pdf" file listed |
| Api.GetPdf | backend/main.py:211-227 | the first match's bytes as an "application/pdf" attachment carrying its file name, or 404 "PDF not found" |
| Api.GetPdfBase64 | backend/main.py:230-247 | the first match's encoded bytes, its name, its size in bytes and the requested identifier, or 404 |
| Api.DeletePdf | backend/main.py:250-259 | the first match alone is removed and reported, with the other files kept in order; without a match, 404 and no change |
| Api.RemovedLookup | backend/main.py:253-257 | after the removal the deleted name is gone and every other name holds what it held |
| Api.DeleteSoleMatch | backend/main.py:250-259 | once the only matching file is deleted, a second delete with the same identifier answers 404, so delete is not idempotent |
| Api.GetCurriculum | backend/main.py:262-277 | the unfiltered curriculum context for the lower-cased subject, or 404 "Curriculum not found for ..." when it is empty |
| Api.ContextEmptyIff | backend/main.py:265-271 | the context is empty, and so the answer is 404, iff the subject has no curriculum or the grade record has keys but none of the four that are read |
| Api.GeneratePdfEndpoint | backend/main.py:115-174 | a bad subject gives 400 and a reported generation failure gives 500, both leaving the directory unchanged; otherwise the rendered outline is stored under the built name, and the response carries the identifier, the name, the title, the request's subject and grade, and the encoded bytes |
| Api.WrittenIsListed | backend/main.py:157-159 | a ".pdf" file just written is listed with its entry and found by the identifier in its name |
| Api.GeneratedIsListed | backend/main.py:154-208 | a generated PDF is then listed with the response's identifier, file name, safe title and size, and its identifier finds a stored PDF |

## Left out

- FastAPI routing, CORS, uvicorn, the health endpoints and `load_dotenv` are not modelled; HTTP errors are a `Result` carrying status and detail.
- The language-model client (`backend/groq_client.py`) is not part of this model. The content it returns is a parameter (`generate`), and an error record is just content whose explanation starts with "Failed".
- reportlab rendering and `create_styles` are not modelled: the PDF bytes are `render` applied to the element list, and styles are names only.
- Base64 encoding is the parameter `b64`. The clock (`datetime.now`, mtime timestamps) and `uuid.uuid4` are parameters: `dateStr`, `createdAt`, `now`, `timestampText` and `uuidText`.
- `load_curriculum`'s file and JSON reading is not modelled: the curriculum is a value, given per subject by `curriculumOf`. JSON values are modelled as strings and lists; a key that is absent is `None`.
- A key whose JSON value is null or has an unexpected type is not modelled. The exceptions that would follow in the source are not modelled either.
- Api.GeneratePdfEndpoint: the generic `except Exception` handler (backend/main.py:178-182) is not modelled, because every call it guards is total in the model or a parameter. It also requires `uuidText` to have the canonical UUID shape, which `str(uuid.uuid4())` always has.
- Storage.Directory: the directory holds regular files only, in a fixed listing order, and is given from the start (no `makedirs`). Names with '/' or NUL are not written (`SavePdf` reports them as a failure), so nested paths are not modelled.
- Storage.Written: a newly written file is listed last and an overwritten one keeps its place. `os.listdir` promises no order, so this is the model's own choice. `SavePdf` and `GeneratePdfEndpoint` state their results in that order. The first-match scan (backend/main.py:214) depends on the order, so which file it finds among several matches holds for this order only.
- PdfGenerator.SavePdf: the `output_dir=None` default is not modelled; the directory is always passed.
- Api.SafeTitle: `isalnum` is ASCII-only here, while Python's also accepts non-ASCII letters and digits.
- PyStr.Lower: `lower`, `upper`, `title` and `isspace` are ASCII-only here; Python's Unicode case mapping and whitespace classes are not modelled.
- RagEngine.NormalizeGrade: `int()` is modelled as an optional sign followed by ASCII digits, with single underscores allowed between digits. Non-ASCII digits, which Python also accepts, are not modelled.
- The bullet before each standard is the three characters U+00E2, U+20AC, U+00A2, as spelled in backend/rag_engine.py:86. It is modelled as written.
- backend/test_language_generation.py is not part of this model; its `language` argument to `generate_pdf` does not exist in the code.
