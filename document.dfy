/**
 * Converting one source document (`toJSON` in lib/plugin.js): a `.json` file
 * passes through with a validity flag; any other file has its front matter
 * decoded, its Markdown rendered into `body`, its title resolved, `updatedAt`
 * stamped and the optional user transform applied, and leaves with a `.json`
 * extension.
 *
 * The foreign libraries (front-matter, the renderer, `JSON.parse`, the user
 * transform, content sniffing) are parameters collected in `Env`.
 */
module Document {
  import opened Wrappers
  import opened Json
  import opened Strings
  import opened Title

  /** A JavaScript function value, known by identity; `Env` says what calling it does. */
  datatype Callable = Callable(id: nat)

  /**
   * A source file: its path, its path relative to the glob base, its text,
   * and the ISO form of its modification time (`None` when the file has no `stat`).
   */
  datatype File = File(path: string, relative: string, contents: string, mtime: Option<string>)

  /** What front-matter returns: the metadata attributes and the remaining Markdown. */
  datatype Parsed = Parsed(attributes: seq<Member>, body: string)

  /**
   * What a call of the user transform leaves behind: the record it was given,
   * as it may have mutated it, and what it returned (`None` for `undefined`).
   */
  datatype TransformOutcome = TransformOutcome(record: seq<Member>, returned: Option<JValue>)

  /** The foreign code the plugin calls; each call may throw, giving a `Failure`. */
  datatype Env = Env(
    isText: File -> Result<bool, string>,
    frontMatter: string -> Result<Parsed, string>,
    parseJson: string -> Option<JValue>,
    render: (Callable, string) -> Result<string, string>,
    transform: (Callable, seq<Member>, File) -> Result<TransformOutcome, string>)

  /**
   * The normalised configuration. `renderer` and `transform` are `None` when
   * absent or not functions.
   */
  datatype Config = Config(
    renderer: Option<Callable>,
    name: Option<string>,
    transform: Option<Callable>,
    stripTitle: bool,
    flattenIndex: bool)

  /** An output file's contents: a passed-through `.json` text with its parse, or a converted record. */
  datatype Contents = Raw(text: string, parsed: Option<JValue>) | Data(value: JValue)

  datatype Output = Output(path: string, relative: string, contents: Contents) {
    /** The `isInvalid` flag: a passed-through `.json` file whose text does not parse. */
    predicate Invalid() {
      contents.Raw? && contents.parsed.None?
    }

    /** What `JSON.parse` reads back from a valid output's contents. */
    function Value(): JValue
      requires !Invalid()
    {
      match contents
      case Data(v) => v
      case Raw(_, parsed) => parsed.value
    }
  }

  const JsonExt := ".json"
  const NoRenderer := "Cannot read properties of undefined (reading 'call')"
  const NoStat := "Cannot read properties of null (reading 'mtime')"

  // ---------------------------------------------------------------------
  // The record
  // ---------------------------------------------------------------------

  /** The object `extractTitle` returns when it finds a title. */
  function TitleFields(title: string, body: Option<string>): (fs: seq<Member>)
    ensures UniqueKeys(fs)
    ensures Get(fs, "title") == Some(JStr(title))
    ensures Get(fs, "body") == if body.Some? then Some(JStr(body.value)) else None
    ensures forall k :: k != "title" && k != "body" ==> Get(fs, k).None?
  {
    [Member("title", JStr(title))] + if body.Some? then [Member("body", JStr(body.value))] else []
  }

  /**
   * Title resolution: a truthy `title` is kept; otherwise the title (and,
   * when stripping, the body) extracted from the rendered markup is assigned.
   */
  function ResolveTitle(data: seq<Member>, html: string, strip: bool): (r: seq<Member>)
    ensures forall k :: k != "title" && k != "body" ==> Get(r, k) == Get(data, k)
    ensures TruthyField(Get(data, "title")) ==> r == data
  {
    if TruthyField(Get(data, "title")) then data
    else
      match ExtractTitle(html, strip)
      case Unchanged(_) => data
      case Found(title, body) => Assign(data, TitleFields(title, body))
  }

  /** What title resolution leaves in each property. */
  lemma ResolveTitleFields(data: seq<Member>, html: string, strip: bool)
    ensures var r := ResolveTitle(data, html, strip);
      && (TruthyField(Get(data, "title")) ==> r == data)
      && (!TruthyField(Get(data, "title")) && ExtractTitle(html, strip).Unchanged? ==> r == data)
      && (!TruthyField(Get(data, "title")) && ExtractTitle(html, strip).Found? ==>
            var e := ExtractTitle(html, strip);
            && Get(r, "title") == Some(JStr(e.title))
            && Get(r, "body") == (if strip then Some(JStr(e.body.value)) else Get(data, "body"))
            && forall k :: k != "title" && k != "body" ==> Get(r, k) == Get(data, k))
  {
  }

  /** The record handed to the transform: attributes, rendered body, resolved title, `updatedAt`. */
  function Record(attributes: seq<Member>, html: string, strip: bool, stamp: string): (r: seq<Member>)
    ensures Get(r, "updatedAt") == Some(JStr(stamp))
    ensures Get(r, "body").Some? && Get(r, "body").value.JStr?
  {
    Set(ResolveTitle(Set(attributes, "body", JStr(html)), html, strip), "updatedAt", JStr(stamp))
  }

  /**
   * The record's properties: the rendered body replaces any front-matter body
   * unless a stripped body was extracted; a truthy front-matter title is kept;
   * `updatedAt` is the modification time; every other attribute is unchanged.
   */
  lemma RecordFields(attributes: seq<Member>, html: string, strip: bool, stamp: string)
    ensures var r := Record(attributes, html, strip, stamp);
      var kept := TruthyField(Get(attributes, "title"));
      var e := ExtractTitle(html, strip);
      && Get(r, "updatedAt") == Some(JStr(stamp))
      && Get(r, "title") ==
           (if !kept && e.Found? then Some(JStr(e.title)) else Get(attributes, "title"))
      && Get(r, "body") ==
           (if !kept && e.Found? && strip then Some(JStr(e.body.value)) else Some(JStr(html)))
      && forall k :: k != "title" && k != "body" && k != "updatedAt" ==> Get(r, k) == Get(attributes, k)
  {
    var withBody := Set(attributes, "body", JStr(html));
    assert Get(withBody, "title") == Get(attributes, "title");
    ResolveTitleFields(withBody, html, strip);
  }

  /** A truthy front-matter title stops extraction: the body keeps its `<h1>` even when stripping. */
  lemma TitleKeptVerbatim(attributes: seq<Member>, html: string, strip: bool, stamp: string)
    requires TruthyField(Get(attributes, "title"))
    ensures Get(Record(attributes, html, strip, stamp), "title") == Get(attributes, "title")
    ensures Get(Record(attributes, html, strip, stamp), "body") == Some(JStr(html))
  {
    RecordFields(attributes, html, strip, stamp);
  }

  // ---------------------------------------------------------------------
  // Converting one file
  // ---------------------------------------------------------------------

  /** `config.renderer.call(config.context, markdown)`. */
  function Render(env: Env, config: Config, markdown: string): Result<string, string> {
    match config.renderer
    case None => Failure(NoRenderer)
    case Some(f) => env.render(f, markdown)
  }

  /** `transformedData || data`: the transform's result when truthy, else the (possibly mutated) record. */
  function Transformed(env: Env, config: Config, record: seq<Member>, file: File): (r: Result<JValue, string>)
    ensures r.Success? ==> Truthy(r.value)
    ensures r.Failure? ==> config.transform.Some?
  {
    match config.transform
    case None => Success(JObj(record))
    case Some(f) =>
      match env.transform(f, record, file)
      case Failure(e) => Failure(e)
      case Success(out) =>
        if out.returned.Some? && Truthy(out.returned.value) then Success(out.returned.value)
        else Success(JObj(out.record))
  }

  /** `toJSON(file, config)`: the output file, or the error that rejects it. */
  function Convert(env: Env, config: Config, file: File): (r: Result<Output, string>)
    ensures r.Failure? ==> Extname(file.path) != JsonExt
    ensures r.Success? && r.value.Invalid() ==> Extname(file.path) == JsonExt
    ensures r.Success? && r.value.contents.Raw? ==> r.value.path == file.path
  {
    if Extname(file.path) == JsonExt then
      Success(Output(file.path, file.relative, Raw(file.contents, env.parseJson(file.contents))))
    else
      match env.frontMatter(file.contents)
      case Failure(e) => Failure(e)
      case Success(parsed) =>
        match Render(env, config, parsed.body)
        case Failure(e) => Failure(e)
        case Success(html) =>
          match file.mtime
          case None => Failure(NoStat)
          case Some(stamp) =>
            match Transformed(env, config, Record(parsed.attributes, html, config.stripTitle, stamp), file)
            case Failure(e) => Failure(e)
            case Success(v) =>
              Success(Output(ReplaceExt(file.path, JsonExt), ReplaceExt(file.relative, JsonExt), Data(v)))
  }

  /** `toJSON`, step by step as the source mutates `data` and the cloned file. */
  method ToJson(env: Env, config: Config, file: File) returns (r: Result<Output, string>)
    ensures r == Convert(env, config, file)
  {
    if Extname(file.path) == JsonExt {
      var parsed := env.parseJson(file.contents);
      return Success(Output(file.path, file.relative, Raw(file.contents, parsed)));
    }
    var fm := env.frontMatter(file.contents);
    if fm.Failure? {
      return Failure(fm.error);
    }
    var rendered := Render(env, config, fm.value.body);
    if rendered.Failure? {
      return Failure(rendered.error);
    }
    var html := rendered.value;
    var data := Set(fm.value.attributes, "body", JStr(html));
    if !TruthyField(Get(data, "title")) {
      var extracted := ExtractTitle(html, config.stripTitle);
      if extracted.Found? {
        data := Assign(data, TitleFields(extracted.title, extracted.body));
      }
    }
    if file.mtime.None? {
      return Failure(NoStat);
    }
    data := Set(data, "updatedAt", JStr(file.mtime.value));
    var out := Transformed(env, config, data, file);
    if out.Failure? {
      return Failure(out.error);
    }
    r := Success(Output(ReplaceExt(file.path, JsonExt), ReplaceExt(file.relative, JsonExt), Data(out.value)));
  }

  /** A `.json` input is never rendered: it passes through, flagged invalid exactly when it does not parse. */
  lemma JsonPassthrough(env: Env, config: Config, file: File)
    requires Extname(file.path) == JsonExt
    ensures Convert(env, config, file).Success?
    ensures var o := Convert(env, config, file).value;
      && o.path == file.path && o.contents.Raw? && o.contents.text == file.contents
      && (o.Invalid() <==> env.parseJson(file.contents).None?)
    ensures forall render :: Convert(env.(render := render), config, file) == Convert(env, config, file)
  {
  }

  /** A converted document is never flagged invalid and carries the `.json` extension. */
  lemma ConvertedDocument(env: Env, config: Config, file: File)
    requires Extname(file.path) != JsonExt && Basename(file.path) != ""
    requires Convert(env, config, file).Success?
    ensures var o := Convert(env, config, file).value;
      && !o.Invalid() && o.contents.Data? && Extname(o.path) == JsonExt
  {
    ConvertedShape(env, config, file);
    JsonExtension();
    ReplacedExtension(file.path, JsonExt);
  }

  lemma ConvertedShape(env: Env, config: Config, file: File)
    requires Extname(file.path) != JsonExt
    requires Convert(env, config, file).Success?
    ensures var o := Convert(env, config, file).value;
      o.contents.Data? && o.path == ReplaceExt(file.path, JsonExt)
  {
  }

  lemma JsonExtension()
    ensures IsExtension(JsonExt)
  {
    var e := JsonExt;
    assert e[0] == '.' && e[1] == 'j' && e[2] == 's' && e[3] == 'o' && e[4] == 'n';
  }

  /**
   * Without a transform the output is the record itself; with one, its result
   * when that is truthy, else the record as the transform left it.
   */
  lemma TransformDecides(env: Env, config: Config, file: File, parsed: Parsed, html: string, stamp: string)
    requires Extname(file.path) != JsonExt
    requires env.frontMatter(file.contents) == Success(parsed)
    requires Render(env, config, parsed.body) == Success(html) && file.mtime == Some(stamp)
    ensures var record := Record(parsed.attributes, html, config.stripTitle, stamp);
      var r := Convert(env, config, file);
      && (config.transform.None? ==> r.Success? && r.value.contents == Data(JObj(record)))
      && (config.transform.Some? ==>
            match env.transform(config.transform.value, record, file)
            case Failure(e) => r == Failure(e)
            case Success(out) =>
              && r.Success?
              && r.value.contents == Data(if TruthyField(out.returned) then out.returned.value else JObj(out.record)))
  {
  }

  /** A document is rejected exactly when one of the foreign calls throws or the file has no `stat`. */
  lemma ConvertFails(env: Env, config: Config, file: File)
    ensures Convert(env, config, file).Failure? <==>
      && Extname(file.path) != JsonExt
      && (|| env.frontMatter(file.contents).Failure?
          || Render(env, config, env.frontMatter(file.contents).value.body).Failure?
          || file.mtime.None?
          || Transformed(env, config,
               Record(env.frontMatter(file.contents).value.attributes,
                      Render(env, config, env.frontMatter(file.contents).value.body).value,
                      config.stripTitle, file.mtime.value), file).Failure?)
  {
  }
}
