/**
 * The server's content-type resolver: a file name is mapped to the MIME
 * type sent in the `Content-Type` header by looking up the text after its
 * last '.' in a fixed, case-sensitive table. The table's value is sent as it
 * is: no charset parameter is ever appended.
 */
module ContentTypes {
  import opened Options
  import opened Strings

  /** The fallback for names without an extension and for extensions outside the table. */
  const OctetStream := "application/octet-stream"

  /**
   * The resolver's table written out entry by entry, every templated value
   * spelled in full, in the groups of the switch: the reference `ForExtension`
   * is checked against. `None` means the table has no entry for `ext`.
   */
  function Lookup(ext: string): Option<string> {
    if ext in WebTable then Some(WebTable[ext])
    else if ext in ArchiveTable then Some(ArchiveTable[ext])
    else if ext in DataTable then Some(DataTable[ext])
    else if ext in DocumentTable then Some(DocumentTable[ext])
    else if ext in FontTable then Some(FontTable[ext])
    else if ext in AudioTable then Some(AudioTable[ext])
    else if ext in ImageTable then Some(ImageTable[ext])
    else if ext in PictureTable then Some(PictureTable[ext])
    else if ext in VideoTable then Some(VideoTable[ext])
    else if ext in PlainTextTable then Some(PlainTextTable[ext])
    else if ext in SourceTable then Some(SourceTable[ext])
    else None
  }

  /** The values the resolver may produce: a value of the table, or the fallback. */
  ghost predicate ServedType(mime: string) {
    mime == OctetStream || exists ext :: Lookup(ext) == Some(mime)
  }

  /** The charset parameter a text type could carry; the resolver never appends it. */
  const Charset := "; charset=utf-8"

  /** A type followed by the charset parameter ends with the parameter's last character. */
  lemma CharsetEndsTheType(base: string, mime: string)
    requires mime != "" && mime[|mime| - 1] != Charset[|Charset| - 1]
    ensures mime != base + Charset
  {
    var suffixed := base + Charset;
    assert suffixed[|suffixed| - 1] == Charset[|Charset| - 1];
  }

  /** The four text types of the table. */
  predicate TextType(mime: string) {
    mime in {"text/plain", "text/html", "text/css", "text/csv"}
  }

  /** A type whose top-level type is `text`, such as `text/javascript`. */
  predicate TextMedia(mime: string) {
    |mime| >= 5 && mime[..5] == "text/"
  }

  /** A type that does not start with `t` is not a text type. */
  lemma OtherMedia(mime: string)
    requires mime != "" && mime[0] != 't'
    ensures !TextMedia(mime)
  {
    if |mime| >= 5 {
      assert mime[..5][0] == mime[0];
    }
  }

  /** The extensions whose entries are text types. */
  predicate TextExtension(ext: string) {
    ext in {"css", "csv", "html", "htm", "txt", "dat", "md", ".gitignore", "go", "h", "c", "py", "tex", "sty", "m"}
  }

  /** Typical web content. */
  const WebTable: map<string, string> := map[
    "js" := "application/javascript", "mjs" := "application/javascript",
    "css" := "text/css", "csv" := "text/csv", "html" := "text/html",
    "htm" := "text/html"
  ]

  /** Archives. */
  const ArchiveTable: map<string, string> := map[
    "7z" := "application/x-7z-compressed", "zip" := "application/zip",
    "gz" := "application/gzip", "rar" := "application/vnd.rar"
  ]

  /** Data formats, XHTML and shell scripts. */
  const DataTable: map<string, string> := map[
    "rtf" := "application/rtf", "json" := "application/json",
    "xml" := "application/xml", "pdf" := "application/pdf",
    "xhtml" := "application/xhtml+xml", "sh" := "application/x-sh",
    "csh" := "application/x-csh"
  ]

  /**
   * Office documents. Each Office Open XML type is a single string, written
   * here and in the switch as two concatenated literals only so that the
   * prover can read its first characters.
   */
  const DocumentTable: map<string, string> := map[
    "doc" := "application/msword",
    "docx" := "application/" + "vnd.openxmlformats-officedocument.wordprocessingml.document",
    "ppt" := "application/vnd.ms-powerpoint",
    "pptx" := "application/" + "vnd.openxmlformats-officedocument.presentationml.presentation",
    "xls" := "application/vnd.ms-excel",
    "xlsx" := "application/" + "vnd.openxmlformats-officedocument.spreadsheetml.sheet"
  ]

  /** Fonts. */
  const FontTable: map<string, string> := map[
    "ttf" := "font/ttf", "otf" := "font/otf", "woff" := "font/woff",
    "woff2" := "font/woff2"
  ]

  /** Audio. */
  const AudioTable: map<string, string> := map[
    "wav" := "audio/wav", "aac" := "audio/aac", "opus" := "audio/opus",
    "mp3" := "audio/mpeg"
  ]

  /** Images whose type is the extension itself, and TIFF. */
  const ImageTable: map<string, string> := map[
    "bmp" := "image/bmp", "gif" := "image/gif", "png" := "image/png",
    "webp" := "image/webp", "tif" := "image/tiff", "tiff" := "image/tiff"
  ]

  /** Vector graphics, JPEG and icons. */
  const PictureTable: map<string, string> := map[
    "svg" := "image/svg+xml", "jpg" := "image/jpeg", "jpeg" := "image/jpeg",
    "ico" := "image/x-icon"
  ]

  /** Video. */
  const VideoTable: map<string, string> := map[
    "ts" := "video/mp2t", "avi" := "video/x-msvideo", "mp4" := "video/mp4",
    "webm" := "video/webm", "mpeg" := "video/mpeg"
  ]

  /** Plain text; the `.gitignore` key is the switch's own. */
  const PlainTextTable: map<string, string> := map[
    "txt" := "text/plain", "dat" := "text/plain", "md" := "text/plain",
    ".gitignore" := "text/plain"
  ]

  /** Program sources. */
  const SourceTable: map<string, string> := map[
    "go" := "text/plain", "h" := "text/plain", "c" := "text/plain",
    "py" := "text/plain", "tex" := "text/plain", "sty" := "text/plain",
    "m" := "text/plain"
  ]

  /**
   * The extension the resolver switches on: the text after the last '.'.
   * There is none when the name has no '.' or ends with its last '.'.
   */
  function Extension(filename: string): (ext: Option<string>)
    ensures ext.None? <==> '.' !in filename || filename[|filename| - 1] == '.'
    ensures ext.Some? ==>
      && ext.value != ""
      && '.' !in ext.value
      && |ext.value| < |filename|
      && filename == filename[..|filename| - |ext.value| - 1] + "." + ext.value
  {
    var i := LastIndexOf(filename, '.');
    if i == -1 || |filename| == i + 1 then None
    else
      assert filename == filename[..i] + "." + filename[i + 1..];
      Some(filename[i + 1..])
  }

  /** The resolver's switch on the extension, case by case; anything else falls back. */
  function ForExtension(ext: string): (mime: string)
    ensures mime != ""
  {
    match ext
    // Typical web content
    case "js" | "mjs" => "application/javascript"
    case "css" | "csv" => "text/" + ext
    case "html" | "htm" => "text/html"
    // Applications
    case "7z" => "application/x-7z-compressed"
    case "zip" | "rtf" | "json" | "xml" | "pdf" => "application/" + ext
    case "gz" => "application/gzip"
    case "rar" => "application/vnd.rar"
    case "doc" => "application/msword"
    case "docx" => "application/" + "vnd.openxmlformats-officedocument.wordprocessingml.document"
    case "ppt" => "application/vnd.ms-powerpoint"
    case "pptx" => "application/" + "vnd.openxmlformats-officedocument.presentationml.presentation"
    case "xls" => "application/vnd.ms-excel"
    case "xlsx" => "application/" + "vnd.openxmlformats-officedocument.spreadsheetml.sheet"
    case "xhtml" => "application/xhtml+xml"
    case "sh" | "csh" => "application/x-" + ext
    // Fonts
    case "ttf" | "otf" | "woff" | "woff2" => "font/" + ext
    // Audio
    case "wav" | "aac" | "opus" => "audio/" + ext
    case "mp3" => "audio/mpeg"
    // Images
    case "bmp" | "gif" | "png" | "webp" => "image/" + ext
    case "tif" | "tiff" => "image/tiff"
    case "svg" => "image/svg+xml"
    case "jpg" | "jpeg" => "image/jpeg"
    case "ico" => "image/x-icon"
    // Video
    case "ts" => "video/mp2t"
    case "avi" => "video/x-msvideo"
    case "mp4" | "webm" | "mpeg" => "video/" + ext
    // Plain text and program sources
    case "txt" | "dat" | "md" | ".gitignore" => "text/plain"
    case "go" | "h" | "c" | "py" | "tex" | "sty" | "m" => "text/plain"
    case _ => OctetStream
  }

  /**
   * The content type of a file: total, never empty, always a value of the
   * table or the fallback, and the fallback whenever the name has no
   * extension.
   */
  function ContentType(filename: string): (mime: string)
    ensures ServedType(mime) && mime != ""
    ensures '.' !in filename || filename[|filename| - 1] == '.' ==> mime == OctetStream
  {
    match Extension(filename)
    case None => OctetStream
    case Some(ext) =>
      ForExtensionMatchesTable(ext);
      ForExtension(ext)
  }

  /**
   * The switch is the table: for an extension the table lists it returns the
   * table's value, and for any other extension the fallback.
   */
  lemma ForExtensionMatchesTable(ext: string)
    ensures Lookup(ext).None? ==> ForExtension(ext) == OctetStream
    ensures Lookup(ext).Some? ==> ForExtension(ext) == Lookup(ext).value != OctetStream
    ensures ServedType(ForExtension(ext)) && ForExtension(ext) != ""
    ensures TextType(ForExtension(ext)) <==> TextExtension(ext)
    ensures forall base :: ForExtension(ext) != base + Charset
    ensures TextMedia(ForExtension(ext)) ==> TextType(ForExtension(ext))
  {
    if Lookup(ext).Some? {
      SwitchCaseIsTableEntry(ext);
    } else {
      UnlistedFallsBack(ext);
      forall base ensures OctetStream != base + Charset {
        CharsetEndsTheType(base, OctetStream);
      }
    }
  }

  /** For a listed extension the switch returns the table's value. */
  lemma SwitchCaseIsTableEntry(ext: string)
    requires Lookup(ext).Some?
    ensures ForExtension(ext) == Lookup(ext).value && ForExtension(ext) != ""
    ensures ForExtension(ext) != OctetStream
    ensures TextType(ForExtension(ext)) <==> TextExtension(ext)
    ensures forall base :: ForExtension(ext) != base + Charset
    ensures TextMedia(ForExtension(ext)) ==> TextType(ForExtension(ext))
  {
    if ext in WebTable {
      WebEntries(ext);
      WebMedia(ext);
    } else if ext in ArchiveTable {
      ArchiveEntries(ext);
      ArchiveMedia(ext);
    } else if ext in DataTable {
      DataEntries(ext);
      DataMedia(ext);
    } else if ext in DocumentTable {
      DocumentEntries(ext);
      DocumentMedia(ext);
    } else if ext in FontTable {
      FontEntries(ext);
      FontMedia(ext);
    } else if ext in AudioTable {
      AudioEntries(ext);
      AudioMedia(ext);
    } else if ext in ImageTable {
      ImageEntries(ext);
      ImageMedia(ext);
    } else if ext in PictureTable {
      PictureEntries(ext);
      PictureMedia(ext);
    } else if ext in VideoTable {
      VideoEntries(ext);
      VideoMedia(ext);
    } else if ext in PlainTextTable {
      PlainTextEntries(ext);
    } else {
      SourceEntries(ext);
    }
  }

  /** An extension the table does not list reaches the default case. */
  lemma UnlistedFallsBack(ext: string)
    requires Lookup(ext).None?
    ensures ForExtension(ext) == OctetStream && !TextExtension(ext)
    ensures !TextMedia(ForExtension(ext))
  {
    assert OctetStream[..5][0] == 'a';
  }

  lemma WebEntries(ext: string)
    requires ext in WebTable
    ensures ForExtension(ext) == WebTable[ext] && ForExtension(ext) != "" && WebTable[ext] != OctetStream
    ensures TextType(WebTable[ext]) <==> TextExtension(ext)
    ensures forall base :: WebTable[ext] != base + Charset
  {
    forall base ensures WebTable[ext] != base + Charset {
      CharsetEndsTheType(base, WebTable[ext]);
    }
    assert "text/" + "css" == "text/css";
    assert "text/" + "csv" == "text/csv";
  }

  lemma ArchiveEntries(ext: string)
    requires ext in ArchiveTable
    ensures ForExtension(ext) == ArchiveTable[ext] && ForExtension(ext) != "" && ArchiveTable[ext] != OctetStream
    ensures TextType(ArchiveTable[ext]) <==> TextExtension(ext)
    ensures forall base :: ArchiveTable[ext] != base + Charset
  {
    forall base ensures ArchiveTable[ext] != base + Charset {
      CharsetEndsTheType(base, ArchiveTable[ext]);
    }
    assert "application/" + "zip" == "application/zip";
  }

  lemma DataEntries(ext: string)
    requires ext in DataTable
    ensures ForExtension(ext) == DataTable[ext] && ForExtension(ext) != "" && DataTable[ext] != OctetStream
    ensures TextType(DataTable[ext]) <==> TextExtension(ext)
    ensures forall base :: DataTable[ext] != base + Charset
  {
    forall base ensures DataTable[ext] != base + Charset {
      CharsetEndsTheType(base, DataTable[ext]);
    }
    assert "application/" + "rtf" == "application/rtf";
    assert "application/" + "json" == "application/json";
    assert "application/" + "xml" == "application/xml";
    assert "application/" + "pdf" == "application/pdf";
    assert "application/x-" + "sh" == "application/x-sh";
    assert "application/x-" + "csh" == "application/x-csh";
  }

  lemma DocumentEntries(ext: string)
    requires ext in DocumentTable
    ensures ForExtension(ext) == DocumentTable[ext] && ForExtension(ext) != "" && DocumentTable[ext] != OctetStream
    ensures TextType(DocumentTable[ext]) <==> TextExtension(ext)
    ensures forall base :: DocumentTable[ext] != base + Charset
  {
    forall base ensures DocumentTable[ext] != base + Charset {
      CharsetEndsTheType(base, DocumentTable[ext]);
    }
  }

  lemma FontEntries(ext: string)
    requires ext in FontTable
    ensures ForExtension(ext) == FontTable[ext] && ForExtension(ext) != "" && FontTable[ext] != OctetStream
    ensures TextType(FontTable[ext]) <==> TextExtension(ext)
    ensures forall base :: FontTable[ext] != base + Charset
  {
    forall base ensures FontTable[ext] != base + Charset {
      CharsetEndsTheType(base, FontTable[ext]);
    }
    assert "font/" + "ttf" == "font/ttf";
    assert "font/" + "otf" == "font/otf";
    assert "font/" + "woff" == "font/woff";
    assert "font/" + "woff2" == "font/woff2";
  }

  lemma AudioEntries(ext: string)
    requires ext in AudioTable
    ensures ForExtension(ext) == AudioTable[ext] && ForExtension(ext) != "" && AudioTable[ext] != OctetStream
    ensures TextType(AudioTable[ext]) <==> TextExtension(ext)
    ensures forall base :: AudioTable[ext] != base + Charset
  {
    forall base ensures AudioTable[ext] != base + Charset {
      CharsetEndsTheType(base, AudioTable[ext]);
    }
    assert "audio/" + "wav" == "audio/wav";
    assert "audio/" + "aac" == "audio/aac";
    assert "audio/" + "opus" == "audio/opus";
  }

  lemma ImageEntries(ext: string)
    requires ext in ImageTable
    ensures ForExtension(ext) == ImageTable[ext] && ForExtension(ext) != "" && ImageTable[ext] != OctetStream
    ensures TextType(ImageTable[ext]) <==> TextExtension(ext)
    ensures forall base :: ImageTable[ext] != base + Charset
  {
    forall base ensures ImageTable[ext] != base + Charset {
      CharsetEndsTheType(base, ImageTable[ext]);
    }
    assert "image/" + "bmp" == "image/bmp";
    assert "image/" + "gif" == "image/gif";
    assert "image/" + "png" == "image/png";
    assert "image/" + "webp" == "image/webp";
  }

  lemma PictureEntries(ext: string)
    requires ext in PictureTable
    ensures ForExtension(ext) == PictureTable[ext] && ForExtension(ext) != "" && PictureTable[ext] != OctetStream
    ensures TextType(PictureTable[ext]) <==> TextExtension(ext)
    ensures forall base :: PictureTable[ext] != base + Charset
  {
    forall base ensures PictureTable[ext] != base + Charset {
      CharsetEndsTheType(base, PictureTable[ext]);
    }
  }

  lemma VideoEntries(ext: string)
    requires ext in VideoTable
    ensures ForExtension(ext) == VideoTable[ext] && ForExtension(ext) != "" && VideoTable[ext] != OctetStream
    ensures TextType(VideoTable[ext]) <==> TextExtension(ext)
    ensures forall base :: VideoTable[ext] != base + Charset
  {
    forall base ensures VideoTable[ext] != base + Charset {
      CharsetEndsTheType(base, VideoTable[ext]);
    }
    assert "video/" + "mp4" == "video/mp4";
    assert "video/" + "webm" == "video/webm";
    assert "video/" + "mpeg" == "video/mpeg";
  }

  lemma PlainTextEntries(ext: string)
    requires ext in PlainTextTable
    ensures ForExtension(ext) == PlainTextTable[ext] && ForExtension(ext) != "" && PlainTextTable[ext] != OctetStream
    ensures TextType(PlainTextTable[ext]) <==> TextExtension(ext)
    ensures forall base :: PlainTextTable[ext] != base + Charset
  {
    forall base ensures PlainTextTable[ext] != base + Charset {
      CharsetEndsTheType(base, PlainTextTable[ext]);
    }
  }

  lemma SourceEntries(ext: string)
    requires ext in SourceTable
    ensures ForExtension(ext) == SourceTable[ext] && ForExtension(ext) != "" && SourceTable[ext] != OctetStream
    ensures TextType(SourceTable[ext]) <==> TextExtension(ext)
    ensures forall base :: SourceTable[ext] != base + Charset
  {
    forall base ensures SourceTable[ext] != base + Charset {
      CharsetEndsTheType(base, SourceTable[ext]);
    }
  }

  /** The only web-content types under `text/` are text types. */
  lemma WebMedia(ext: string)
    requires ext in WebTable
    ensures TextMedia(WebTable[ext]) ==> TextType(WebTable[ext])
  {
    if ext in {"js", "mjs"} {
      OtherMedia(WebTable[ext]);
    }
  }

  /** No archive type is under `text/`. */
  lemma ArchiveMedia(ext: string)
    requires ext in ArchiveTable
    ensures !TextMedia(ArchiveTable[ext])
  {
    OtherMedia(ArchiveTable[ext]);
  }

  /** No data-format type is under `text/`. */
  lemma DataMedia(ext: string)
    requires ext in DataTable
    ensures !TextMedia(DataTable[ext])
  {
    OtherMedia(DataTable[ext]);
  }

  /** No office-document type is under `text/`. */
  lemma DocumentMedia(ext: string)
    requires ext in DocumentTable
    ensures !TextMedia(DocumentTable[ext])
  {
    OtherMedia(DocumentTable[ext]);
  }

  /** No font type is under `text/`. */
  lemma FontMedia(ext: string)
    requires ext in FontTable
    ensures !TextMedia(FontTable[ext])
  {
    OtherMedia(FontTable[ext]);
  }

  /** No audio type is under `text/`. */
  lemma AudioMedia(ext: string)
    requires ext in AudioTable
    ensures !TextMedia(AudioTable[ext])
  {
    OtherMedia(AudioTable[ext]);
  }

  /** No image type is under `text/`. */
  lemma ImageMedia(ext: string)
    requires ext in ImageTable
    ensures !TextMedia(ImageTable[ext])
  {
    OtherMedia(ImageTable[ext]);
  }

  /** No picture type is under `text/`. */
  lemma PictureMedia(ext: string)
    requires ext in PictureTable
    ensures !TextMedia(PictureTable[ext])
  {
    OtherMedia(PictureTable[ext]);
  }

  /** No video type is under `text/`. */
  lemma VideoMedia(ext: string)
    requires ext in VideoTable
    ensures !TextMedia(VideoTable[ext])
  {
    OtherMedia(VideoTable[ext]);
  }

  /** Only the text after the last '.' decides: an earlier '.' in the name plays no part. */
  lemma LastExtensionDecides(stem: string, ext: string)
    requires ext != "" && '.' !in ext
    ensures Extension(stem + "." + ext) == Some(ext)
    ensures ContentType(stem + "." + ext) == ForExtension(ext)
  {
    var name := stem + "." + ext;
    assert name[|stem| + 1..] == ext;
    LastIndexOfUnique(name, '.', |stem|);
  }


  /** `a.tar.gz` is served as gzip: the `tar` part is ignored. */
  lemma DoubleExtension()
    ensures ContentType("a.tar.gz") == "application/gzip"
  {
    assert "a.tar.gz" == "a.tar" + "." + "gz";
    LastExtensionDecides("a.tar", "gz");
    ArchiveEntries("gz");
  }

  /**
   * The `.gitignore` case of the switch can never be reached: an extension
   * never contains a '.'.
   */
  lemma GitignoreCaseUnreachable(filename: string)
    ensures Extension(filename) != Some(".gitignore")
  {
    assert '.' in ".gitignore";
  }

  /** The switch's key is `.gitignore`, with the dot; `gitignore` falls back. */
  lemma GitignoreKey()
    ensures ForExtension(".gitignore") == "text/plain"
    ensures ForExtension("gitignore") == OctetStream
  {
  }

  /**
   * A file whose name ends in `.gitignore` (the file `.gitignore` itself
   * included) has the extension `gitignore`, so it is served as the fallback.
   */
  lemma GitignoreFileFallsBack(stem: string)
    ensures Extension(stem + ".gitignore") == Some("gitignore")
    ensures ContentType(stem + ".gitignore") == OctetStream
  {
    GitignoreKey();
    LastExtensionDecides(stem, "gitignore");
    assert stem + ".gitignore" == stem + "." + "gitignore";
  }

  /** The templated text and application cases return the template's prefix followed by the extension itself. */
  lemma TemplatedDocumentTypes(ext: string)
    ensures ext in {"css", "csv"} ==> ForExtension(ext) == "text/" + ext
    ensures ext in {"zip", "rtf", "json", "xml", "pdf"} ==> ForExtension(ext) == "application/" + ext
    ensures ext in {"sh", "csh"} ==> ForExtension(ext) == "application/x-" + ext
  {
  }

  /** The templated font and audio cases return the template's prefix followed by the extension itself. */
  lemma TemplatedSoundAndFontTypes(ext: string)
    ensures ext in {"ttf", "otf", "woff", "woff2"} ==> ForExtension(ext) == "font/" + ext
    ensures ext in {"wav", "aac", "opus"} ==> ForExtension(ext) == "audio/" + ext
  {
  }

  /** The templated image and video cases return the template's prefix followed by the extension itself. */
  lemma TemplatedPictureTypes(ext: string)
    ensures ext in {"bmp", "gif", "png", "webp"} ==> ForExtension(ext) == "image/" + ext
    ensures ext in {"mp4", "webm", "mpeg"} ==> ForExtension(ext) == "video/" + ext
  {
  }

  /** Aliased web extensions share one value. */
  lemma AliasedWebTypes()
    ensures ForExtension("js") == ForExtension("mjs") == "application/javascript"
    ensures ForExtension("html") == ForExtension("htm") == "text/html"
  {
  }

  /** Aliased image extensions share one value. */
  lemma AliasedImageTypes()
    ensures ForExtension("tif") == ForExtension("tiff") == "image/tiff"
    ensures ForExtension("jpg") == ForExtension("jpeg") == "image/jpeg"
  {
  }

  /** Plain-text and program-source extensions all give `text/plain`. */
  lemma PlainTextTypes(ext: string)
    requires ext in {"txt", "dat", "md", "go", "h", "c", "py", "tex", "sty", "m"}
    ensures ForExtension(ext) == "text/plain"
  {
    if ext in PlainTextTable {
      PlainTextEntries(ext);
    } else {
      SourceEntries(ext);
    }
  }

  /**
   * The fallback is produced exactly when there is no extension or the
   * table does not list it.
   */
  lemma FallbackExactly(filename: string)
    ensures ContentType(filename) == OctetStream <==>
              Extension(filename).None? || Lookup(Extension(filename).value).None?
  {
    match Extension(filename)
    case None =>
    case Some(ext) =>
      ForExtensionMatchesTable(ext);
  }

  /** Matching is case-sensitive: `PNG` is not `png`. */
  lemma CaseSensitive()
    ensures ForExtension("png") == "image/png"
    ensures ForExtension("PNG") == OctetStream
  {
  }

  /**
   * No charset parameter is ever appended: the result never ends with one,
   * and it is one of the four text types exactly when the extension is one
   * of those the table gives a text type.
   */
  lemma NoCharsetParameter(filename: string, base: string)
    ensures ContentType(filename) != base + Charset
    ensures TextType(ContentType(filename)) <==>
              Extension(filename).Some? && TextExtension(Extension(filename).value)
    ensures TextMedia(ContentType(filename)) ==> TextType(ContentType(filename))
  {
    match Extension(filename)
    case None =>
      CharsetEndsTheType(base, OctetStream);
      assert OctetStream[..5][0] == 'a';
    case Some(ext) =>
      ForExtensionMatchesTable(ext);
  }
}
