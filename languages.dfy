/**
 * The lookup tables of the editor: file name -> extension -> language,
 * language -> widget mode, and extension -> MIME type.
 */
module Languages {

  /**
   * The languages a file can carry. The source stores them as the strings
   * `Name` gives; `PlainText` is "text/plain".
   */
  datatype Language = PlainText | JavaScript | Html | Css | Python | Php | Sql
  {
    function Name(): string
    {
      match this
      case PlainText => "text/plain"
      case JavaScript => "javascript"
      case Html => "html"
      case Css => "css"
      case Python => "python"
      case Php => "php"
      case Sql => "sql"
    }
  }

  /** The extensions the language table recognises. */
  const KnownExtensions: set<string> := {"js", "html", "htm", "css", "py", "php", "sql"}

  /** The text after the last '.' of `name`, or all of `name` when it has no dot. */
  function LastSegment(name: string): (r: string)
    ensures |r| <= |name| && r == name[|name| - |r|..]
    ensures '.' !in r
    ensures |r| < |name| ==> name[|name| - |r| - 1] == '.'
  {
    if name == [] || name[|name| - 1] == '.' then []
    else LastSegment(name[..|name| - 1]) + [name[|name| - 1]]
  }

  /** A name without a dot is its own last segment. */
  lemma {:induction false} LastSegmentNoDot(name: string)
    requires '.' !in name
    ensures LastSegment(name) == name
  {
    if name != [] {
      LastSegmentNoDot(name[..|name| - 1]);
      assert name == name[..|name| - 1] + [name[|name| - 1]];
    }
  }

  /** Whatever precedes the last dot does not matter. */
  lemma {:induction false} LastSegmentAfterDot(prefix: string, ext: string)
    requires '.' !in ext
    ensures LastSegment(prefix + "." + ext) == ext
  {
    var name := prefix + "." + ext;
    if ext == [] {
      assert name[|name| - 1] == '.';
    } else {
      var shorter := ext[..|ext| - 1];
      assert name[..|name| - 1] == prefix + "." + shorter;
      assert name[|name| - 1] == ext[|ext| - 1];
      LastSegmentAfterDot(prefix, shorter);
      assert ext == shorter + [ext[|ext| - 1]];
    }
  }

  /** ASCII lower-casing of one character. */
  function LowerChar(c: char): char
  {
    if 'A' <= c <= 'Z' then (c as int + 32) as char else c
  }

  function Lower(s: string): string
  {
    seq(|s|, i requires 0 <= i < |s| => LowerChar(s[i]))
  }

  /** The extension of a file name: its last dot-separated segment, lower-cased. */
  function Extension(name: string): (ext: string)
    ensures |ext| <= |name| && '.' !in ext
    ensures ext == Lower(name[|name| - |ext|..])
    ensures |ext| < |name| ==> name[|name| - |ext| - 1] == '.'
  {
    Lower(LastSegment(name))
  }

  /** The language for an extension that is already lower-cased. */
  function LanguageOfExtension(ext: string): (language: Language)
    ensures language == PlainText <==> ext !in KnownExtensions
    ensures language == Html <==> ext == "html" || ext == "htm"
  {
    if ext == "js" then JavaScript
    else if ext == "html" || ext == "htm" then Html
    else if ext == "css" then Css
    else if ext == "py" then Python
    else if ext == "php" then Php
    else if ext == "sql" then Sql
    else PlainText
  }

  /** The language inferred from a file name. */
  function LanguageByFileName(name: string): (language: Language)
    ensures language == PlainText <==> Extension(name) !in KnownExtensions
    ensures language == Html <==> Extension(name) == "html" || Extension(name) == "htm"
  {
    LanguageOfExtension(Extension(name))
  }

  /** The widget's syntax mode for a language; "null" switches highlighting off. */
  function ModeByLanguage(language: Language): (mode: string)
    ensures mode == "null" <==> language == PlainText
    ensures mode == "htmlmixed" <==> language == Html
    ensures mode != "null" && mode != "htmlmixed" ==> mode == language.Name()
  {
    match language
    case JavaScript => "javascript"
    case Html => "htmlmixed"
    case Css => "css"
    case Python => "python"
    case Php => "php"
    case Sql => "sql"
    case PlainText => "null"
  }

  /** The MIME type for an extension, compared case-insensitively. */
  function MimeTypeByExtension(extension: string): (mime: string)
    ensures mime in {"application/javascript", "text/html", "text/css", "application/x-httpd-php",
                     "application/sql", "text/plain"}
    ensures mime == "text/plain" <==> Lower(extension) !in {"js", "html", "htm", "css", "php", "sql"}
    ensures mime == "text/html" <==> Lower(extension) in {"html", "htm"}
  {
    var ext := Lower(extension);
    if ext == "js" then "application/javascript"
    else if ext == "html" || ext == "htm" then "text/html"
    else if ext == "css" then "text/css"
    else if ext == "py" then "text/plain"
    else if ext == "php" then "application/x-httpd-php"
    else if ext == "sql" then "application/sql"
    else "text/plain"
  }

  /** A file gets syntax highlighting exactly when its extension is a known one. */
  lemma ModeOfFileName(name: string)
    ensures ModeByLanguage(LanguageByFileName(name)) == "null" <==> Extension(name) !in KnownExtensions
    ensures Extension(name) in {"html", "htm"} ==> ModeByLanguage(LanguageByFileName(name)) == "htmlmixed"
  {
  }

  /** The language of `prefix.ext` depends only on `ext`, whatever its case. */
  lemma LanguageOfDottedName(prefix: string, ext: string)
    requires '.' !in ext
    ensures LanguageByFileName(prefix + "." + ext) == LanguageByFileName(ext)
    ensures Extension(prefix + "." + ext) == Lower(ext)
  {
    LastSegmentAfterDot(prefix, ext);
    LastSegmentNoDot(ext);
  }

  /** Example: the extension is taken after the last dot, whatever its case. */
  lemma DottedUpperCaseExample()
    ensures LanguageByFileName("app.min.JS") == JavaScript
  {
    LanguageOfDottedName("app.min", "JS");
    assert LowerChar('J') == 'j' && LowerChar('S') == 's';
    assert Lower("JS") == "js";
  }

  /** Example: a `.js` file is JavaScript. */
  lemma ScriptJsExample()
    ensures LanguageByFileName("script.js") == JavaScript
  {
    LanguageOfDottedName("script", "js");
    assert Lower("js") == "js";
  }

  /** Example: a name without a dot is its own extension. */
  lemma UndottedExample()
    ensures LanguageByFileName("Makefile") == PlainText
  {
    LastSegmentNoDot("Makefile");
    var ext := Extension("Makefile");
    assert |ext| == 8;
    assert ext !in KnownExtensions;
  }
}
