/**
 * The HTTP endpoints of the backend server: generating a worksheet PDF and
 * storing it, listing the stored PDFs, fetching one (as bytes or as base64),
 * deleting one, and reading a subject's curriculum summary.
 *
 * The web framework, the language model, the PDF renderer, base64 encoding,
 * the clock and the random identifier are parameters of the endpoints; the
 * storage directory is a `Directory` object the endpoints read and change.
 */
module Api {
  import opened Wrappers
  import opened PyStr
  import opened Storage
  import opened RagEngine
  import opened PdfGenerator

  // ---------------------------------------------------------------------------
  // Requests, responses and errors
  // ---------------------------------------------------------------------------

  /** An `HTTPException`: a status code and its detail message. */
  datatype HttpError = HttpError(status: nat, detail: string)

  const NotFound: HttpError := HttpError(404, "PDF not found")
  const BadSubject: HttpError := HttpError(400, "Subject must be 'math' or 'science'")

  datatype GenerateRequest = GenerateRequest(prompt: string, subject: string, grade: string, includeAnswers: bool)

  datatype GenerateResponse = GenerateResponse(
    success: bool,
    pdfId: string,
    filename: string,
    title: string,
    subject: string,
    grade: string,
    createdAt: string,
    pdfBase64: Option<string>,
    message: string)

  /** The raw-bytes download: body, media type and `Content-Disposition`. */
  datatype FileResponse = FileResponse(content: Bytes, mediaType: string, contentDisposition: string)

  datatype Base64Response = Base64Response(pdfId: string, filename: string, pdfBase64: string, fileSizeBytes: nat)

  datatype DeleteResponse = DeleteResponse(success: bool, message: string)

  datatype CurriculumResponse = CurriculumResponse(subject: string, grade: string, context: string)

  /** One entry of the stored-PDF listing. */
  datatype PdfEntry = PdfEntry(pdfId: string, filename: string, title: string, fileSizeBytes: nat, createdAt: string)

  datatype ListResponse = ListResponse(pdfs: seq<PdfEntry>, count: nat)

  // ---------------------------------------------------------------------------
  // Request checks
  // ---------------------------------------------------------------------------

  /** The subject names one of the two supported subjects, ignoring case. */
  predicate ValidSubject(subject: string) {
    Lower(subject) == "math" || Lower(subject) == "science"
  }

  /** An accepted subject is a bare word: letters only, so surrounding blanks
      or any other character make the request fail. */
  lemma ValidSubjectLetters(subject: string)
    requires ValidSubject(subject)
    ensures |subject| == 4 || |subject| == 7
    ensures forall c | c in subject :: IsAlpha(c)
  {
    forall c | c in subject
      ensures IsAlpha(c)
    {
      var i :| 0 <= i < |subject| && subject[i] == c;
      assert IsAlpha(Lower(subject)[i]);
    }
  }

  /** Upper- and lower-case spellings of a subject are accepted alike. */
  lemma ValidSubjectIgnoresCase(subject: string)
    ensures ValidSubject(subject) <==> ValidSubject(Lower(subject))
    ensures ValidSubject(subject) <==> ValidSubject(Upper(subject))
  {
    LowerIdempotent(subject);
    assert Lower(Upper(subject)) == Lower(subject) by {
      forall i | 0 <= i < |subject|
        ensures Lower(Upper(subject))[i] == Lower(subject)[i]
      {
        LowerUpperChar(subject[i]);
      }
    }
  }

  /** The generator reported a failure: the content has an "error" key and its
      explanation starts with "Failed". */
  predicate IsGenerationFailure(content: Content) {
    content.error.Some? && StartsWith(content.explanation.GetOr(""), "Failed")
  }

  // ---------------------------------------------------------------------------
  // File names
  // ---------------------------------------------------------------------------

  /** The characters a title keeps in its file name. */
  predicate IsTitleChar(c: char) {
    IsAlnum(c) || c == ' ' || c == '-' || c == '_'
  }

  /** The title with every other character dropped and the surrounding blanks
      stripped. */
  function SafeTitle(title: string): (r: string)
    ensures forall c | c in r :: c in title && IsTitleChar(c)
    ensures Unpadded(r)
  {
    var kept := Filter(title, IsTitleChar);
    StripChars(kept);
    Strip(kept)
  }

  /** Every letter, digit, '-' and '_' of the title survives in it. */
  lemma SafeTitleKeeps(title: string, c: char)
    requires c in title && IsTitleChar(c) && c != ' '
    ensures c in SafeTitle(title)
  {
    FilterMember(title, IsTitleChar, c);
    StripKeepsNonSpace(Filter(title, IsTitleChar), c);
  }

  /** A title made of kept characters with no surrounding blanks is its own
      safe form. */
  lemma SafeTitleOfSafe(title: string)
    requires forall c | c in title :: IsTitleChar(c)
    requires Unpadded(title)
    ensures SafeTitle(title) == title
  {
    FilterAll(title, IsTitleChar);
    StripUnpadded(title);
  }

  /** Making a title safe twice is making it safe once. */
  lemma SafeTitleIdempotent(title: string)
    ensures SafeTitle(SafeTitle(title)) == SafeTitle(title)
  {
    SafeTitleOfSafe(SafeTitle(title));
  }

  predicate IsHexDigit(c: char) {
    IsDigit(c) || 'a' <= c <= 'f'
  }

  /** `str(uuid.uuid4())`: 32 lower-case hexadecimal digits in groups of 8, 4,
      4, 4 and 12, separated by '-'. */
  predicate IsUuidText(u: string) {
    |u| == 36 && forall i | 0 <= i < |u| ::
      if i == 8 || i == 13 || i == 18 || i == 23 then u[i] == '-' else IsHexDigit(u[i])
  }

  /** `u[:8]`: the identifier given to a generated PDF. */
  function PdfIdOf(u: string): (id: string)
    ensures |id| == if |u| < 8 then |u| else 8
    ensures id == u[..|id|]
    ensures IsUuidText(u) ==> forall c | c in id :: IsHexDigit(c)
  {
    if |u| < 8 then u else u[..8]
  }

  /** Hexadecimal digits hold none of the characters file names treat
      specially. */
  lemma HexHasNoSeparator(id: string)
    requires forall c | c in id :: IsHexDigit(c)
    ensures '_' !in id && '.' !in id && '/' !in id && '\0' !in id
  {
  }

  /** `f"{safe_title}_{pdf_id}.pdf"` */
  function BuildFilename(safeTitle: string, pdfId: string): string {
    safeTitle + "_" + pdfId + ".pdf"
  }

  /** The position of the last occurrence of `c`. */
  function LastIndexOf(s: string, c: char): (r: Option<nat>)
    ensures r.Some? ==> r.value < |s| && s[r.value] == c && c !in s[r.value + 1..]
    ensures r.None? ==> c !in s
  {
    if s == [] then None
    else if s[|s| - 1] == c then Some(|s| - 1)
    else
      var r := LastIndexOf(s[..|s| - 1], c);
      assert s == s[..|s| - 1] + [s[|s| - 1]];
      r
  }

  /** The title and identifier read back from a stored file name. */
  datatype ParsedName = ParsedName(title: string, pdfId: string)

  /** `filename.rsplit('_', 1)`: the title is what precedes the last '_', the
      identifier what follows it with every ".pdf" removed; a name without '_'
      is both title and identifier. */
  function ParseFilename(filename: string): ParsedName {
    match LastIndexOf(filename, '_')
    case None => ParsedName(filename, filename)
    case Some(i) => ParsedName(filename[..i], Replace(filename[i + 1..], ".pdf", ""))
  }

  /** The last `c` of `a + [c] + b`, when `b` has none, is the one in the
      middle. */
  lemma {:induction false} LastIndexOfMiddle(a: string, c: char, b: string)
    requires c !in b
    ensures LastIndexOf(a + [c] + b, c) == Some(|a|)
  {
    if b != [] {
      var b0 := b[..|b| - 1];
      assert forall x | x in b0 :: x in b;
      LastIndexOfMiddle(a, c, b0);
      assert b[|b| - 1] in b;
      assert (a + [c] + b)[..|a + [c] + b| - 1] == a + [c] + b0;
    }
  }

  /** A file name built from a title and an identifier without '_' or '.'
      parses back to that title and identifier, whatever the title holds. */
  lemma ParseBuildRoundTrip(safeTitle: string, pdfId: string)
    requires '_' !in pdfId && '.' !in pdfId
    ensures ParseFilename(BuildFilename(safeTitle, pdfId)) == ParsedName(safeTitle, pdfId)
  {
    var rest := pdfId + ".pdf";
    var f := safeTitle + ['_'] + rest;
    assert BuildFilename(safeTitle, pdfId) == f;
    LastIndexOfMiddle(safeTitle, '_', rest);
    assert f[..|safeTitle|] == safeTitle;
    assert f[|safeTitle| + 1..] == rest;
    ReplaceTrailing(pdfId, ".pdf", "");
    assert pdfId + "" == pdfId;
  }

  /** A name without '_' is listed with the whole name as title and id. */
  lemma ParseWithoutUnderscore(filename: string)
    requires '_' !in filename
    ensures ParseFilename(filename) == ParsedName(filename, filename)
  {
  }

  /** A name built from kept title characters and a hexadecimal identifier
      is a plain ".pdf" name inside the storage directory. */
  lemma {:induction false} BuiltNameIsPlain(safeTitle: string, pdfId: string)
    requires forall c | c in safeTitle :: IsTitleChar(c)
    requires forall c | c in pdfId :: IsHexDigit(c)
    ensures IsPlainName(BuildFilename(safeTitle, pdfId))
    ensures EndsWith(BuildFilename(safeTitle, pdfId), ".pdf")
  {
    var tail := "_" + pdfId + ".pdf";
    var f := BuildFilename(safeTitle, pdfId);
    assert f == safeTitle + tail;
    HexHasNoSeparator(pdfId);
    assert tail == "_" + (pdfId + ".pdf");
    assert f[|f| - 4..] == ".pdf";
  }

  /** The name given to a generated PDF: it is a plain name inside the storage
      directory, it ends in ".pdf", and it parses back to the safe title and
      the identifier. */
  lemma GeneratedFilename(title: string, u: string)
    requires IsUuidText(u)
    ensures var f := BuildFilename(SafeTitle(title), PdfIdOf(u));
      && IsPlainName(f)
      && EndsWith(f, ".pdf")
      && ParseFilename(f) == ParsedName(SafeTitle(title), PdfIdOf(u))
  {
    var id := PdfIdOf(u);
    HexHasNoSeparator(id);
    BuiltNameIsPlain(SafeTitle(title), id);
    ParseBuildRoundTrip(SafeTitle(title), id);
  }

  // ---------------------------------------------------------------------------
  // GET /api/pdfs
  // ---------------------------------------------------------------------------

  predicate IsPdfFile(f: File) {
    EndsWith(f.name, ".pdf")
  }

  /** The listing entry of a stored file; `timestampText` renders a
      modification time as text. */
  function EntryOf(f: File, timestampText: int -> string): PdfEntry {
    var p := ParseFilename(f.name);
    PdfEntry(p.pdfId, f.name, p.title, |f.data|, timestampText(f.mtime))
  }

  /** The entries of the ".pdf" files, in directory order. */
  function Listing(files: seq<File>, timestampText: int -> string): (r: seq<PdfEntry>)
    ensures |r| <= |files|
  {
    if files == [] then []
    else
      var last := files[|files| - 1];
      Listing(files[..|files| - 1], timestampText) + (if IsPdfFile(last) then [EntryOf(last, timestampText)] else [])
  }

  /** The listing is the ".pdf" files, each turned into its entry. */
  lemma {:induction false} ListingOfPdfFiles(files: seq<File>, timestampText: int -> string)
    ensures var kept := Filter(files, IsPdfFile);
      && |Listing(files, timestampText)| == |kept|
      && forall i | 0 <= i < |kept| :: Listing(files, timestampText)[i] == EntryOf(kept[i], timestampText)
  {
    if files != [] {
      var init := files[..|files| - 1];
      ListingOfPdfFiles(init, timestampText);
      FilterSnoc(init, files[|files| - 1], IsPdfFile);
      assert files == init + [files[|files| - 1]];
    }
  }

  /** A stored file is listed iff its name ends in ".pdf"; every entry comes
      from such a file. */
  lemma ListingMembers(files: seq<File>, timestampText: int -> string, f: File)
    ensures f in files && IsPdfFile(f) ==> EntryOf(f, timestampText) in Listing(files, timestampText)
    ensures forall e | e in Listing(files, timestampText) ::
      exists g | g in files :: IsPdfFile(g) && e == EntryOf(g, timestampText)
  {
    var kept := Filter(files, IsPdfFile);
    var l := Listing(files, timestampText);
    ListingOfPdfFiles(files, timestampText);
    FilterMember(files, IsPdfFile, f);
    if f in files && IsPdfFile(f) {
      var i :| 0 <= i < |kept| && kept[i] == f;
      assert l[i] == EntryOf(f, timestampText);
    }
    forall e | e in l
      ensures exists g | g in files :: IsPdfFile(g) && e == EntryOf(g, timestampText)
    {
      var i :| 0 <= i < |l| && l[i] == e;
      assert kept[i] in kept;
    }
  }

  /** `list_pdfs`: one entry per ".pdf" file in directory order, and their
      count. */
  method ListPdfs(dir: Directory, timestampText: int -> string) returns (r: ListResponse)
    ensures r.pdfs == Listing(dir.files, timestampText)
    ensures r.count == |r.pdfs|
  {
    var files := dir.files;
    var pdfs: seq<PdfEntry> := [];
    var i := 0;
    while i < |files|
      invariant 0 <= i <= |files|
      invariant pdfs == Listing(files[..i], timestampText)
    {
      var f := files[i];
      if EndsWith(f.name, ".pdf") {
        var p := ParseFilename(f.name);
        pdfs := pdfs + [PdfEntry(p.pdfId, f.name, p.title, |f.data|, timestampText(f.mtime))];
      }
      assert files[..i + 1][..i] == files[..i];
      i := i + 1;
    }
    assert files[..|files|] == files;
    r := ListResponse(pdfs, |pdfs|);
  }

  // ---------------------------------------------------------------------------
  // Finding a stored PDF by identifier
  // ---------------------------------------------------------------------------

  /** `pdf_id in filename and filename.endswith('.pdf')` */
  predicate Matches(name: string, pdfId: string) {
    Contains(name, pdfId) && EndsWith(name, ".pdf")
  }

  /** The position of the first stored file that matches the identifier. */
  function FirstMatching(files: seq<File>, pdfId: string): (r: Option<nat>)
    ensures r.Some? ==> r.value < |files| && Matches(files[r.value].name, pdfId)
    ensures r.Some? ==> forall j | 0 <= j < r.value :: !Matches(files[j].name, pdfId)
    ensures r.None? ==> forall j | 0 <= j < |files| :: !Matches(files[j].name, pdfId)
  {
    if files == [] then None
    else
      var init := files[..|files| - 1];
      match FirstMatching(init, pdfId)
      case Some(i) => Some(i)
      case None => if Matches(files[|files| - 1].name, pdfId) then Some(|files| - 1) else None
  }

  /** The scan every lookup by identifier performs: the first listed file
      whose name contains the identifier and ends in ".pdf". */
  method FindPdf(dir: Directory, pdfId: string) returns (r: Option<nat>)
    ensures r == FirstMatching(dir.files, pdfId)
  {
    var files := dir.files;
    var i := 0;
    while i < |files|
      invariant 0 <= i <= |files|
      invariant forall j | 0 <= j < i :: !Matches(files[j].name, pdfId)
    {
      if Contains(files[i].name, pdfId) && EndsWith(files[i].name, ".pdf") {
        return Some(i);
      }
      i := i + 1;
    }
    return None;
  }

  /** Some stored file matches iff the scan finds one. */
  lemma FoundIff(files: seq<File>, pdfId: string)
    ensures FirstMatching(files, pdfId).Some? <==> exists f | f in files :: Matches(f.name, pdfId)
  {
    if f :| f in files && Matches(f.name, pdfId) {
      var j :| 0 <= j < |files| && files[j] == f;
    }
  }

  /** A PDF stored under the name built from its identifier is found by that
      identifier: the scan stops at it or at an earlier file whose name also
      contains the identifier. */
  lemma GeneratedIsFound(files: seq<File>, safeTitle: string, pdfId: string, j: nat)
    requires j < |files| && files[j].name == BuildFilename(safeTitle, pdfId)
    ensures FirstMatching(files, pdfId).Some?
    ensures FirstMatching(files, pdfId).value <= j
  {
    var f := files[j].name;
    assert f == safeTitle + "_" + pdfId + ".pdf";
    assert OccursAt(f, pdfId, |safeTitle| + 1) by {
      assert f[|safeTitle| + 1..|safeTitle| + 1 + |pdfId|] == pdfId;
    }
    ContainsIff(f, pdfId);
    assert f[|f| - 4..] == ".pdf";
    assert Matches(f, pdfId);
  }

  /** The empty identifier, and ".pdf" itself, match exactly the ".pdf"
      names. */
  lemma MatchesAnyPdf(name: string)
    ensures Matches(name, "") <==> EndsWith(name, ".pdf")
    ensures Matches(name, ".pdf") <==> EndsWith(name, ".pdf")
  {
    assert OccursAt(name, "", 0);
    ContainsIff(name, "");
    if EndsWith(name, ".pdf") {
      assert OccursAt(name, ".pdf", |name| - 4);
      ContainsIff(name, ".pdf");
    }
  }

  /** The empty identifier selects the first ".pdf" file listed, as ".pdf"
      does. */
  lemma EmptyIdMatchesAnyPdf(files: seq<File>)
    ensures FirstMatching(files, "") == FirstMatching(files, ".pdf")
    ensures forall j | 0 <= j < |files| :: Matches(files[j].name, "") <==> IsPdfFile(files[j])
  {
    forall j | 0 <= j < |files|
      ensures Matches(files[j].name, "") <==> Matches(files[j].name, ".pdf")
      ensures Matches(files[j].name, "") <==> IsPdfFile(files[j])
    {
      MatchesAnyPdf(files[j].name);
    }
    SameMatchesSameFirst(files, "", ".pdf");
  }

  lemma {:induction false} SameMatchesSameFirst(files: seq<File>, a: string, b: string)
    requires forall j | 0 <= j < |files| :: Matches(files[j].name, a) <==> Matches(files[j].name, b)
    ensures FirstMatching(files, a) == FirstMatching(files, b)
  {
    var ra := FirstMatching(files, a);
    var rb := FirstMatching(files, b);
    if ra.Some? && rb.Some? {
      assert !(ra.value < rb.value) && !(rb.value < ra.value);
    }
  }

  // ---------------------------------------------------------------------------
  // GET /api/pdfs/{pdf_id}, GET /api/pdfs/{pdf_id}/base64
  // ---------------------------------------------------------------------------

  /** `get_pdf`: the first matching file as an attachment, or 404. */
  method GetPdf(dir: Directory, pdfId: string) returns (r: Result<FileResponse, HttpError>)
    ensures match FirstMatching(dir.files, pdfId)
      case None => r == Failure(NotFound)
      case Some(i) =>
        r == Success(FileResponse(dir.files[i].data, "application/pdf", "attachment; filename=" + dir.files[i].name))
  {
    var found := FindPdf(dir, pdfId);
    match found
    case None =>
      r := Failure(NotFound);
    case Some(i) =>
      var f := dir.files[i];
      r := Success(FileResponse(f.data, "application/pdf", "attachment; filename=" + f.name));
  }

  /** `get_pdf_base64`: the first matching file, base64-encoded by `b64`, with
      its name and size, or 404; the identifier is echoed as requested. */
  method GetPdfBase64(dir: Directory, pdfId: string, b64: Bytes -> string) returns (r: Result<Base64Response, HttpError>)
    ensures match FirstMatching(dir.files, pdfId)
      case None => r == Failure(NotFound)
      case Some(i) =>
        var f := dir.files[i];
        r == Success(Base64Response(pdfId, f.name, b64(f.data), |f.data|))
  {
    var found := FindPdf(dir, pdfId);
    match found
    case None =>
      r := Failure(NotFound);
    case Some(i) =>
      var f := dir.files[i];
      r := Success(Base64Response(pdfId, f.name, b64(f.data), |f.data|));
  }

  // ---------------------------------------------------------------------------
  // DELETE /api/pdfs/{pdf_id}
  // ---------------------------------------------------------------------------

  /** `delete_pdf`: removes the first matching file and reports it, or answers
      404 and leaves the directory alone. */
  method DeletePdf(dir: Directory, pdfId: string) returns (r: Result<DeleteResponse, HttpError>)
    requires dir.Valid()
    modifies dir
    ensures dir.Valid()
    ensures match FirstMatching(old(dir.files), pdfId)
      case None => r == Failure(NotFound) && dir.files == old(dir.files)
      case Some(i) =>
        && r == Success(DeleteResponse(true, "PDF " + pdfId + " deleted"))
        && dir.files == old(dir.files[..i] + dir.files[i + 1..])
  {
    var found := FindPdf(dir, pdfId);
    match found
    case None =>
      r := Failure(NotFound);
    case Some(i) =>
      dir.Remove(i);
      r := Success(DeleteResponse(true, "PDF " + pdfId + " deleted"));
  }

  /** Removing the file at position `i` removes its name and nothing else. */
  lemma {:induction false} RemovedLookup(files: seq<File>, i: nat)
    requires DistinctNames(files) && i < |files|
    ensures Lookup(files[..i] + files[i + 1..], files[i].name).None?
    ensures forall n | n != files[i].name :: Lookup(files[..i] + files[i + 1..], n) == Lookup(files, n)
  {
    var rest := files[..i] + files[i + 1..];
    assert forall j | 0 <= j < |rest| :: rest[j] == if j < i then files[j] else files[j + 1];
    forall n | n != files[i].name
      ensures Lookup(rest, n) == Lookup(files, n)
    {
      if i == 0 {
        assert rest == files[1..];
      } else {
        RemovedLookup(files[1..], i - 1);
        assert rest == [files[0]] + (files[1..][..i - 1] + files[1..][i..]);
        assert files[1..][i - 1].name == files[i].name;
      }
    }
  }

  /** When one stored file alone matches the identifier, deleting it makes a
      second delete (or get) with the same identifier answer 404. */
  lemma DeleteSoleMatch(files: seq<File>, pdfId: string, i: nat)
    requires i < |files|
    requires forall j | 0 <= j < |files| && j != i :: !Matches(files[j].name, pdfId)
    ensures FirstMatching(files[..i] + files[i + 1..], pdfId).None?
  {
    var rest := files[..i] + files[i + 1..];
    assert forall j | 0 <= j < |rest| :: rest[j] == if j < i then files[j] else files[j + 1];
  }

  // ---------------------------------------------------------------------------
  // GET /api/curriculum/{subject}/{grade}
  // ---------------------------------------------------------------------------

  /** A grade record that has keys, none of which is one of the four read. */
  predicate OnlyUnreadKeys(gd: GradeData) {
    gd.otherKeys && gd.overview.None? && gd.topics.None? && gd.vocabularyLevel.None? && gd.difficultyGuidelines.None?
  }

  /** `get_curriculum`: the subject's context for the grade with no topic
      filter, or 404 when that context is empty. */
  method GetCurriculum(subject: string, grade: string, curriculumOf: string -> Curriculum)
    returns (r: Result<CurriculumResponse, HttpError>)
    ensures var context := CurriculumContext(Lower(subject), grade, None, curriculumOf(Lower(subject)));
      if context == "" then r == Failure(HttpError(404, "Curriculum not found for " + subject + " grade " + grade))
      else r == Success(CurriculumResponse(subject, grade, context))
  {
    assert ExtractKeywords("") == [];
    var context := GetAugmentedContext("", Lower(subject), grade, curriculumOf(Lower(subject)));
    if context == "" {
      r := Failure(HttpError(404, "Curriculum not found for " + subject + " grade " + grade));
    } else {
      r := Success(CurriculumResponse(subject, grade, context));
    }
  }

  lemma {:induction false} JoinWithNonEmpty(sep: string, parts: seq<string>)
    requires parts != [] && parts[0] != ""
    ensures JoinWith(sep, parts) != ""
  {
  }

  /** The context is empty, and the curriculum endpoint answers 404, exactly
      when the subject has no curriculum or the grade's record holds none of
      the four keys read while having others. A missing grade still yields
      the fallback text. */
  lemma ContextEmptyIff(subject: string, grade: string, keywords: Option<seq<string>>, c: Curriculum)
    ensures CurriculumContext(subject, grade, keywords, c) == "" <==>
      c.IsEmpty() || (GradeDataFor(c, NormalizeGrade(grade)).Some? && OnlyUnreadKeys(GradeDataFor(c, NormalizeGrade(grade)).value))
  {
    if !c.IsEmpty() {
      var g := NormalizeGrade(grade);
      match GradeDataFor(c, g)
      case None =>
      case Some(gd) =>
        if !gd.IsEmpty() {
          var parts := ContextParts(gd, g, ActiveKeywords(keywords));
          if !OnlyUnreadKeys(gd) {
            assert parts != [] && parts[0] != "";
            JoinWithNonEmpty("\n\n", parts);
          }
        }
    }
  }

  // ---------------------------------------------------------------------------
  // POST /api/generate-pdf
  // ---------------------------------------------------------------------------

  /** The content the generator returns for a request: it is given the
      prompt, the lower-cased subject, the grade and the curriculum context
      drawn from the prompt's keywords. */
  function ContentFor(req: GenerateRequest, curriculumOf: string -> Curriculum,
                      generate: (string, string, string, string) -> Content): Content {
    var subject := Lower(req.subject);
    var keywords := ExtractKeywords(req.prompt);
    var context := CurriculumContext(subject, req.grade, if keywords == [] then None else Some(keywords), curriculumOf(subject));
    generate(req.prompt, subject, req.grade, context)
  }

  /** The content's title, or "<Subject> Worksheet" when it has none. */
  function ResponseTitle(content: Content, subject: string): string {
    content.title.GetOr(Title(subject) + " Worksheet")
  }

  /** The name a generated PDF is stored under. */
  function StoredName(content: Content, subject: string, u: string): string {
    BuildFilename(SafeTitle(ResponseTitle(content, subject)), PdfIdOf(u))
  }

  /** `generate_pdf_endpoint`. `uuidText` is the text of the random UUID,
      `createdAt` the response's timestamp text, `dateStr` the date printed
      in the PDF and `now` the stored file's modification time. */
  method GeneratePdfEndpoint(dir: Directory, req: GenerateRequest, curriculumOf: string -> Curriculum,
                             generate: (string, string, string, string) -> Content,
                             render: seq<Element> -> Bytes, b64: Bytes -> string,
                             uuidText: string, createdAt: string, dateStr: string, now: int)
    returns (r: Result<GenerateResponse, HttpError>)
    requires dir.Valid() && IsUuidText(uuidText)
    modifies dir
    ensures dir.Valid()
    ensures var content := ContentFor(req, curriculumOf, generate);
      if !ValidSubject(req.subject) then
        r == Failure(BadSubject) && dir.files == old(dir.files)
      else if IsGenerationFailure(content) then
        && r == Failure(HttpError(500, "Content generation failed: " + content.error.value))
        && dir.files == old(dir.files)
      else
        var pdfBytes := render(Outline(content, req.subject, req.grade, req.includeAnswers, dateStr));
        var filename := StoredName(content, req.subject, uuidText);
        && r == Success(GenerateResponse(true, PdfIdOf(uuidText), filename, ResponseTitle(content, req.subject),
                                         req.subject, req.grade, createdAt, Some(b64(pdfBytes)),
                                         "PDF generated successfully"))
        && dir.files == Written(old(dir.files), filename, pdfBytes, now)
  {
    var subject := Lower(req.subject);
    if !(subject == "math" || subject == "science") {
      return Failure(BadSubject);
    }
    var context := GetAugmentedContext(req.prompt, subject, req.grade, curriculumOf(subject));
    var content := generate(req.prompt, subject, req.grade, context);
    if content.error.Some? && StartsWith(content.explanation.GetOr(""), "Failed") {
      return Failure(HttpError(500, "Content generation failed: " + content.error.value));
    }
    var pdfBytes := GeneratePdf(content, req.subject, req.grade, req.includeAnswers, dateStr, render);
    var pdfId := PdfIdOf(uuidText);
    var title := content.title.GetOr(Title(req.subject) + " Worksheet");
    var filename := SafeTitle(title) + "_" + pdfId + ".pdf";
    GeneratedFilename(title, uuidText);
    var saved := SavePdf(pdfBytes, filename, dir, now);
    assert saved.Success?;
    r := Success(GenerateResponse(true, pdfId, filename, title, req.subject, req.grade, createdAt,
                                  Some(b64(pdfBytes)), "PDF generated successfully"));
  }

  /** A ".pdf" file just written is listed with its entry and can be found
      by any identifier its name contains. */
  lemma WrittenIsListed(files: seq<File>, name: string, pdfBytes: Bytes, now: int,
                        timestampText: int -> string, safeTitle: string, pdfId: string)
    requires DistinctNames(files) && name == BuildFilename(safeTitle, pdfId) && EndsWith(name, ".pdf")
    ensures var after := Written(files, name, pdfBytes, now);
      && EntryOf(File(name, pdfBytes, now), timestampText) in Listing(after, timestampText)
      && FirstMatching(after, pdfId).Some?
  {
    var after := Written(files, name, pdfBytes, now);
    var f := File(name, pdfBytes, now);
    assert f in after;
    ListingMembers(after, timestampText, f);
    var j :| 0 <= j < |after| && after[j] == f;
    GeneratedIsFound(after, safeTitle, pdfId, j);
  }

  /** A generated PDF shows up in the listing with the response's identifier,
      its file name, the safe form of its title and its size, and the
      identifier finds a stored PDF. */
  lemma GeneratedIsListed(files: seq<File>, content: Content, subject: string, u: string,
                          pdfBytes: Bytes, now: int, timestampText: int -> string)
    requires DistinctNames(files) && IsUuidText(u)
    ensures var name := StoredName(content, subject, u);
      var after := Written(files, name, pdfBytes, now);
      && PdfEntry(PdfIdOf(u), name, SafeTitle(ResponseTitle(content, subject)), |pdfBytes|, timestampText(now))
         in Listing(after, timestampText)
      && FirstMatching(after, PdfIdOf(u)).Some?
  {
    var t := SafeTitle(ResponseTitle(content, subject));
    var name := StoredName(content, subject, u);
    GeneratedFilename(ResponseTitle(content, subject), u);
    WrittenIsListed(files, name, pdfBytes, now, timestampText, t, PdfIdOf(u));
    assert EntryOf(File(name, pdfBytes, now), timestampText)
      == PdfEntry(PdfIdOf(u), name, t, |pdfBytes|, timestampText(now));
  }
}
