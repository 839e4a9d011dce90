/**
 * POST /api/articles/upload: a form with a title, an author id and a Word
 * file. The handler checks the fields, parses the author id, accepts the
 * file when either its MIME type or its extension says `.docx`, converts it
 * to HTML and inserts the article.
 */
module ArticleUpload {
  import opened Js

  /** The MIME type of a `.docx` document. */
  const DocxMime := "application/vnd.openxmlformats-officedocument.wordprocessingml.document"

  /** The stored name when the uploaded file has none. */
  const FallbackName := "untitled.docx"

  datatype FileInfo = FileInfo(name: string, mimeType: string)

  /**
   * The form fields `title`, `authorId` and `articleFile`, `None` when
   * absent; `NotForm` is a body that cannot be read as form data.
   */
  datatype UploadForm = NotForm | UploadForm(title: Option<string>, authorId: Option<string>, file: Option<FileInfo>)

  datatype UploadError = FormUnreadable | FieldsRequired | InvalidAuthorId | NotDocx

  function ErrorStatus(e: UploadError): int {
    if e.FormUnreadable? then 500 else 400
  }

  /** The values of the INSERT into `articles`. */
  datatype ArticleRow = ArticleRow(title: string, content: string, authorId: int, originalFilename: string)

  /** `!field` is false: present and not the empty string. */
  predicate Given(field: Option<string>) {
    field.Some? && field.value != ""
  }

  /** `name.split('.').pop().toLowerCase()`. */
  function Extension(name: string): string {
    ToLowerAscii(LastSegment(name, '.'))
  }

  /** The file passes the type check when either test says `.docx`. */
  predicate LooksLikeDocx(f: FileInfo) {
    f.mimeType == DocxMime || Extension(f.name) == "docx"
  }

  /** `file.name || 'untitled.docx'`. */
  function StoredName(name: string): (r: string)
    ensures r != ""
    ensures name != "" ==> r == name
  {
    if name == "" then FallbackName else name
  }

  /**
   * The handler up to the insert: fields, author id, file type, in that
   * order. `html` is what the Word-to-HTML conversion produced.
   */
  function Upload(form: UploadForm, html: string): (r: Result<ArticleRow, UploadError>)
    ensures r.Ok? ==>
      form.UploadForm? && Given(form.title) && Given(form.authorId) && form.file.Some? &&
      LooksLikeDocx(form.file.value) && r.value.title == form.title.value && r.value.content == html &&
      Some(r.value.authorId) == ParseInt10(form.authorId.value) &&
      r.value.originalFilename == StoredName(form.file.value.name)
  {
    if form.NotForm? then Err(FormUnreadable)
    else if !Given(form.title) || !Given(form.authorId) || form.file.None? then Err(FieldsRequired)
    else
      match ParseInt10(form.authorId.value)
      case None => Err(InvalidAuthorId)
      case Some(id) =>
        if !LooksLikeDocx(form.file.value) then Err(NotDocx)
        else Ok(ArticleRow(form.title.value, html, id, StoredName(form.file.value.name)))
  }

  /** 201 Created with the article, or the error's status. */
  function Status(r: Result<ArticleRow, UploadError>): int {
    match r
    case Ok(_) => 201
    case Err(e) => ErrorStatus(e)
  }

  /**
   * The checks run in the order fields, author id, file type, and the first
   * failing one decides the error; all three answer 400.
   */
  lemma UploadFirstFailure(form: UploadForm, html: string)
    ensures Upload(form, html) == Err(FieldsRequired) <==>
      form.UploadForm? && (!Given(form.title) || !Given(form.authorId) || form.file.None?)
    ensures Upload(form, html) == Err(InvalidAuthorId) <==>
      form.UploadForm? && Given(form.title) && Given(form.authorId) && form.file.Some? &&
      ParseInt10(form.authorId.value).None?
    ensures Upload(form, html) == Err(NotDocx) <==>
      form.UploadForm? && Given(form.title) && Given(form.authorId) && form.file.Some? &&
      ParseInt10(form.authorId.value).Some? &&
      form.file.value.mimeType != DocxMime && Extension(form.file.value.name) != "docx"
    ensures form.UploadForm? ==> Status(Upload(form, html)) in {201, 400}
  {
  }

  /**
   * A name whose text after the last dot lower-cases to `docx` passes the
   * type check whatever the MIME type.
   */
  lemma DocxExtensionAccepted(stem: string, ext: string, mimeType: string)
    requires '.' !in ext && ToLowerAscii(ext) == "docx"
    ensures LooksLikeDocx(FileInfo(stem + "." + ext, mimeType))
  {
    assert stem + "." + ext == stem + ['.'] + ext;
    LastSegmentAfterSeparator(stem, '.', ext);
  }

  /** `.docx` is recognised in any letter case. */
  lemma DocxInAnyCase()
    ensures ToLowerAscii("DOCX") == "docx"
    ensures ToLowerAscii("Docx") == "docx"
    ensures ToLowerAscii("docx") == "docx"
  {
    ToLowerAsciiOfLower("docx");
    var u := ToLowerAscii("DOCX");
    assert u[0] == 'd' && u[1] == 'o' && u[2] == 'c' && u[3] == 'x';
    var m := ToLowerAscii("Docx");
    assert m[0] == 'd' && m[1] == 'o' && m[2] == 'c' && m[3] == 'x';
  }

  /** The docx MIME type passes the type check whatever the name. */
  lemma DocxMimeAccepted(name: string)
    ensures LooksLikeDocx(FileInfo(name, DocxMime))
  {
  }

  /** A name without a dot is its own extension: a file called just `docx` passes. */
  lemma BareDocxNameAccepted(mimeType: string)
    ensures LooksLikeDocx(FileInfo("docx", mimeType))
  {
    DotlessName("docx");
    DocxInAnyCase();
  }

  /** Without a dot, the whole name is the extension. */
  lemma DotlessName(name: string)
    requires '.' !in name
    ensures Extension(name) == ToLowerAscii(name)
  {
    LastSegmentWithoutSeparator(name, '.');
  }

  /** Neither test says `.docx` for `report.doc` sent as plain text: it is refused. */
  lemma DocFileRejected()
    ensures !LooksLikeDocx(FileInfo("report.doc", "text/plain"))
  {
    LastSegmentAfterSeparator("report", '.', "doc");
    assert "report" + ['.'] + "doc" == "report.doc";
    assert |Extension("report.doc")| == 3;
    assert |DocxMime| != |"text/plain"|;
  }

  /**
   * The stored filename is never empty, and the fallback is used only for a
   * nameless file, which can only have passed the type check by its MIME
   * type.
   */
  lemma StoredFilename(form: UploadForm, html: string)
    requires Upload(form, html).Ok?
    ensures var row := Upload(form, html).value;
      row.originalFilename != "" &&
      (form.file.value.name != "" ==> row.originalFilename == form.file.value.name) &&
      (form.file.value.name == "" ==> row.originalFilename == FallbackName && form.file.value.mimeType == DocxMime)
  {
    if form.file.value.name == "" {
      assert Extension(form.file.value.name) == "";
    }
  }

  /** `parseInt` stops at the first non-digit: an author id of `12abc` is author 12. */
  lemma AuthorIdTrailingText(title: string, file: FileInfo, html: string)
    requires title != "" && LooksLikeDocx(file)
    ensures var r := Upload(UploadForm(Some(title), Some("12abc"), Some(file)), html);
      r.Ok? && r.value.authorId == 12
  {
    ParseTwelve();
  }

  lemma ParseTwelve()
    ensures ParseInt10("12abc") == Some(12)
  {
    assert ShowNat(1) == ['1'];
    assert ShowNat(12) == ShowNat(1) + ['2'];
    assert ShowInt(12) == ['1', '2'];
    ParseShowInt(12, "abc");
    assert ['1', '2'] + "abc" == "12abc";
  }
}
