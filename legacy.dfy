/**
 * The older revision of the plugin (index.js). A document's record is stored
 * under a dotted path key; a batch merges the per-file objects with
 * util-extend, so the earlier file wins a key collision, then expands and
 * sorts the top level; a single file is written as its bare record, because
 * the write sets the `flatten` flag on the shared configuration object,
 * which only building another stream over that object clears again.
 */
module Legacy {
  import opened Wrappers
  import opened Json
  import opened Strings
  import opened Consolidate
  import opened Document
  import opened Plugin

  const UndefinedContents := "The first argument must be of type string or an instance of Buffer"
  const NotAnObject := "Cannot merge a record that is not an object"

  // ---------------------------------------------------------------------
  // One document
  // ---------------------------------------------------------------------

  /** `s.replace(/[\/\\]/g, '.')`. */
  function DotSeparators(s: string): (r: string)
    ensures |r| == |s|
    ensures forall i :: 0 <= i < |s| ==> r[i] == if s[i] == '/' || s[i] == '\\' then '.' else s[i]
  {
    seq(|s|, i requires 0 <= i < |s| => if s[i] == '/' || s[i] == '\\' then '.' else s[i])
  }

  /** The path key: the relative path up to its first `.`, with every separator turned into `.`. */
  function LegacyKey(relative: string): (key: string)
    ensures |key| == IndexOf(relative, '.')
    ensures '.' !in relative[..|key|]
  {
    DotSeparators(Split(relative, '.')[0])
  }

  /**
   * The key is the characters before the first `.`, each `/` and `\` turned
   * into `.` and every other character kept, so no separator is left.
   */
  lemma LegacyKeySpec(relative: string)
    ensures var head := Split(relative, '.')[0];
      && head == relative[..IndexOf(relative, '.')]
      && |LegacyKey(relative)| == |head|
      && (forall i :: 0 <= i < |head| && head[i] != '/' && head[i] != '\\' ==> LegacyKey(relative)[i] == head[i])
      && (forall i :: 0 <= i < |head| && (head[i] == '/' || head[i] == '\\') ==> LegacyKey(relative)[i] == '.')
    ensures '/' !in LegacyKey(relative) && '\\' !in LegacyKey(relative)
  {
    var key := LegacyKey(relative);
    forall i | 0 <= i < |key| ensures key[i] != '/' && key[i] != '\\' {
    }
  }

  /** The legacy output file: its path and the value stringified into it. */
  datatype LegacyOutput = LegacyOutput(path: string, contents: JValue)

  /**
   * The record after the optional transform. The transform's return value
   * replaces the record unconditionally; `None` is `undefined`.
   */
  function LegacyTransformed(env: Env, config: Config, record: seq<Member>, file: File): (r: Result<Option<JValue>, string>)
    ensures r.Failure? ==> config.transform.Some?
    ensures r.Success? && r.value.None? ==> config.transform.Some?
  {
    match config.transform
    case None => Success(Some(JObj(record)))
    case Some(f) =>
      match env.transform(f, record, file)
      case Failure(e) => Failure(e)
      case Success(out) => Success(out.returned)
  }

  /**
   * index.js's `toJSON(file, config)` for a buffered file: the record is
   * `{key: record}`, or the bare record when `flatten` is set; an undefined
   * bare record cannot be written.
   */
  function LegacyConvert(env: Env, config: Config, flatten: bool, file: File): (r: Result<LegacyOutput, string>)
    ensures r.Success? ==> r.value.path == ReplaceExt(file.path, JsonExt)
    ensures r.Success? && !flatten ==> r.value.contents.JObj? && |r.value.contents.members| <= 1
  {
    match env.frontMatter(file.contents)
    case Failure(e) => Failure(e)
    case Success(parsed) =>
      match Render(env, config, parsed.body)
      case Failure(e) => Failure(e)
      case Success(html) =>
        var record := ResolveTitle(Set(parsed.attributes, "body", JStr(html)), html, config.stripTitle);
        match LegacyTransformed(env, config, record, file)
        case Failure(e) => Failure(e)
        case Success(value) =>
          var path := ReplaceExt(file.path, JsonExt);
          if !flatten then
            Success(LegacyOutput(path, JObj(if value.Some? then [Member(LegacyKey(file.relative), value.value)] else [])))
          else if value.Some? then Success(LegacyOutput(path, value.value))
          else Failure(UndefinedContents)
  }

  /**
   * The written value is the bare record with `flatten`, else an object with
   * the record as the one property at the path key (none for `undefined`);
   * with a transform, the record is whatever it returned, falsy or not.
   */
  lemma LegacyConvertShape(env: Env, config: Config, flatten: bool, file: File, parsed: Parsed, html: string)
    requires env.frontMatter(file.contents) == Success(parsed) && Render(env, config, parsed.body) == Success(html)
    ensures var record := ResolveTitle(Set(parsed.attributes, "body", JStr(html)), html, config.stripTitle);
      var t := LegacyTransformed(env, config, record, file);
      var r := LegacyConvert(env, config, flatten, file);
      && (config.transform.None? ==> t == Success(Some(JObj(record))))
      && (config.transform.Some? && env.transform(config.transform.value, record, file).Success? ==>
            t == Success(env.transform(config.transform.value, record, file).value.returned))
      && (t.Failure? ==> r == Failure(t.error))
      && (t.Success? && flatten && t.value.Some? ==> r.Success? && r.value.contents == t.value.value)
      && (t.Success? && flatten && t.value.None? ==> r.Failure?)
      && (t.Success? && !flatten ==>
            && r.Success?
            && r.value.contents == JObj(if t.value.Some? then [Member(LegacyKey(file.relative), t.value.value)] else []))
  {
  }

  // ---------------------------------------------------------------------
  // The batch merge
  // ---------------------------------------------------------------------

  /**
   * util-extend's `extend(origin, add)`: `add`'s properties copied onto
   * `origin` from the last to the first, so the first is assigned last.
   */
  function Extend(origin: seq<Member>, add: seq<Member>): (r: seq<Member>)
    ensures forall k :: Get(r, k).Some? <==> Get(origin, k).Some? || Get(add, k).Some?
    decreases |add|
  {
    if add == [] then origin
    else Set(Extend(origin, add[1..]), add[0].key, add[0].value)
  }

  /** After `extend`, a property reads as in `add` where `add` has it (its first occurrence), else as in `origin`. */
  lemma {:induction false} ExtendGet(origin: seq<Member>, add: seq<Member>, k: string)
    ensures Get(Extend(origin, add), k) == if Get(add, k).Some? then Get(add, k) else Get(origin, k)
    decreases |add|
  {
    if add != [] {
      ExtendGet(origin, add[1..], k);
    }
  }

  /** `data = extend(fileData, data)` over the files in order, starting from `{}`. */
  function MergeAll(datas: seq<seq<Member>>): seq<Member>
    decreases |datas|
  {
    if datas == [] then []
    else Extend(datas[|datas| - 1], MergeAll(datas[..|datas| - 1]))
  }

  lemma {:induction false} MergeAllAbsent(datas: seq<seq<Member>>, k: string)
    requires forall j :: 0 <= j < |datas| ==> Get(datas[j], k).None?
    ensures Get(MergeAll(datas), k).None?
    decreases |datas|
  {
    if datas != [] {
      var init := datas[..|datas| - 1];
      MergeAllAbsent(init, k);
      ExtendGet(datas[|datas| - 1], MergeAll(init), k);
    }
  }

  /** The earliest object that has a property decides its value: the earlier file wins. */
  lemma {:induction false} EarlierWins(datas: seq<seq<Member>>, i: nat, k: string)
    requires i < |datas| && Get(datas[i], k).Some?
    requires forall j :: 0 <= j < i ==> Get(datas[j], k).None?
    ensures Get(MergeAll(datas), k) == Get(datas[i], k)
    decreases |datas|
  {
    var n := |datas|;
    var init := datas[..n - 1];
    ExtendGet(datas[n - 1], MergeAll(init), k);
    if i < n - 1 {
      EarlierWins(init, i, k);
    } else {
      MergeAllAbsent(init, k);
    }
  }

  /** `JSON.parse` of a converted file's contents, which `extend` needs to be an object. */
  function FileData(env: Env, config: Config, flatten: bool, file: File): Result<seq<Member>, string> {
    match LegacyConvert(env, config, flatten, file)
    case Failure(e) => Failure(e)
    case Success(o) => if o.contents.JObj? then Success(o.contents.members) else Failure(NotAnObject)
  }

  function FileDataOf(env: Env, config: Config, flatten: bool): File -> Result<seq<Member>, string> {
    file => FileData(env, config, flatten, file)
  }

  function FileDatas(env: Env, config: Config, flatten: bool, files: seq<File>): Result<seq<seq<Member>>, string> {
    MapAll(FileDataOf(env, config, flatten), files)
  }

  /** `sort(expand(data))`: the dotted names expanded, then the top level sorted by name. */
  function LegacyTree(data: seq<Member>): (t: JValue)
    ensures t.JObj? && SortedByKey(t.members)
    ensures multiset(t.members) == multiset(Expand(data).members)
  {
    JObj(SortByKey(Expand(data).members))
  }

  /** Sorting the top level of an object changes nothing any path finds. */
  lemma LookupSortedTop(t: JValue, q: seq<string>)
    requires t.JObj? && |q| >= 1
    ensures Lookup(JObj(SortByKey(t.members)), q) == Lookup(t, q)
  {
    SortGet(t.members, q[0]);
  }

  /**
   * `sort(expand(data))` holds a property's value at the path its name
   * spells, whatever the order of the names, when every other property
   * leaves that path: its path is apart, or it is an object above the path
   * without the next segment, which set-value merges over what is there.
   */
  lemma LegacyTreeHolds(data: seq<Member>, i: nat)
    requires i < |data|
    requires forall j :: 0 <= j < |data| && j != i ==> Leaves(data[j], Split(data[i].key, '.'))
    ensures Lookup(LegacyTree(data), Split(data[i].key, '.')) == Some(data[i].value)
  {
    ExpandFinds(data, i);
    LookupSortedTop(Expand(data), Split(data[i].key, '.'));
  }

  /**
   * A batch that lists `blog/x.md` before `blog.md`: the merged object names
   * `blog.x` before `blog`, and the expanded tree still holds the record of
   * `blog/x.md` under `blog`, next to the fields of `blog.md`'s record.
   */
  lemma PrefixAfterExtension(r1: JValue, r2: JValue, f: string, c: JValue)
    requires r1.JObj? && Get(r1.members, "x").None?
    requires UniqueKeys(r1.members) && Get(r1.members, f) == Some(c)
    ensures Lookup(LegacyTree([Member("blog.x", r2), Member("blog", r1)]), ["blog", "x"]) == Some(r2)
    ensures Lookup(LegacyTree([Member("blog.x", r2), Member("blog", r1)]), ["blog", f]) == Some(c)
  {
    var data := [Member("blog.x", r2), Member("blog", r1)];
    BlogSplits();
    assert Leaves(data[1], ["blog", "x"]) by {
      assert ["blog", "x"][..1] == ["blog"];
    }
    LegacyTreeHolds(data, 0);
    ExpandKeepsFields(data, 1, f, c);
    LookupSortedTop(Expand(data), ["blog", f]);
  }

  lemma BlogSplits()
    ensures Split("blog.x", '.') == ["blog", "x"] && Split("blog", '.') == ["blog"]
  {
    assert "blog.x" == "blog" + ['.'] + "x";
    SplitPair("blog", "x", '.');
    SplitJoin(["blog"], '.');
  }

  /**
   * In a batch written without `flatten`, a document's record is the value at
   * its path key in the merged object whenever no earlier document has the
   * same key, however many later ones do.
   */
  lemma BatchEarlierWins(env: Env, config: Config, files: seq<File>, datas: seq<seq<Member>>, i: nat, v: JValue)
    requires FileDatas(env, config, false, files) == Success(datas)
    requires i < |files| && LegacyConvert(env, config, false, files[i]).Success?
    requires LegacyConvert(env, config, false, files[i]).value.contents == JObj([Member(LegacyKey(files[i].relative), v)])
    requires forall j :: 0 <= j < i ==> LegacyKey(files[j].relative) != LegacyKey(files[i].relative)
    ensures Get(MergeAll(datas), LegacyKey(files[i].relative)) == Some(v)
  {
    var k := LegacyKey(files[i].relative);
    MapAllSpec(FileDataOf(env, config, false), files);
    forall j | 0 <= j < i ensures Get(datas[j], k).None? {
      OwnKeyOnly(env, config, files[j], datas[j]);
    }
    assert datas[i] == [Member(k, v)];
    EarlierWins(datas, i, k);
  }

  /** Without `flatten`, a file's object has no property but its own path key. */
  lemma OwnKeyOnly(env: Env, config: Config, file: File, data: seq<Member>)
    requires FileData(env, config, false, file) == Success(data)
    ensures forall k :: k != LegacyKey(file.relative) ==> Get(data, k).None?
  {
  }

  // ---------------------------------------------------------------------
  // One write
  // ---------------------------------------------------------------------

  /** What one write emits: error messages and pushed files. */
  datatype LegacyEmitted = LegacyEmitted(errors: seq<string>, pushed: seq<LegacyOutput>)

  /**
   * What one write emits, given the `flatten` flag before it: a missing
   * renderer is an error; a batch is merged, expanded and sorted into one file
   * at the configured name; a single file is written bare.
   */
  function LegacyRun(env: Env, config: Config, flatten: bool, input: Input): (e: LegacyEmitted)
    ensures |e.errors| + |e.pushed| == 1
    ensures e.errors == [] <==> config.renderer.Some? && match input
      case Batch(files) => FileDatas(env, config, flatten, files).Success?
      case Single(file) => LegacyConvert(env, config, true, file).Success?
  {
    if config.renderer.None? then LegacyEmitted([RendererRequired], [])
    else
      match input
      case Batch(files) =>
        (match FileDatas(env, config, flatten, files)
         case Failure(e) => LegacyEmitted([e], [])
         case Success(datas) => LegacyEmitted([], [LegacyOutput(OutputPath(config.name), LegacyTree(MergeAll(datas)))]))
      case Single(file) =>
        (match LegacyConvert(env, config, true, file)
         case Failure(e) => LegacyEmitted([e], [])
         case Success(o) => LegacyEmitted([], [o]))
  }

  /** A single file is emitted as its bare record, with the `.json` extension. */
  lemma SingleIsBare(env: Env, config: Config, flatten: bool, file: File, parsed: Parsed, html: string, v: JValue)
    requires config.renderer.Some?
    requires env.frontMatter(file.contents) == Success(parsed) && Render(env, config, parsed.body) == Success(html)
    requires LegacyTransformed(env, config, ResolveTitle(Set(parsed.attributes, "body", JStr(html)), html, config.stripTitle), file) == Success(Some(v))
    ensures LegacyRun(env, config, flatten, Single(file)) == LegacyEmitted([], [LegacyOutput(ReplaceExt(file.path, JsonExt), v)])
  {
  }

  /** A batch pushes exactly one file, at `"/" + (name || "content.json")`, with its top level sorted. */
  lemma BatchOutput(env: Env, config: Config, flatten: bool, files: seq<File>)
    requires config.renderer.Some? && FileDatas(env, config, flatten, files).Success?
    ensures var e := LegacyRun(env, config, flatten, Batch(files));
      && e.errors == [] && |e.pushed| == 1 && e.pushed[0].path == OutputPath(config.name)
      && e.pushed[0].contents.JObj? && SortedByKey(e.pushed[0].contents.members)
  {
  }

  // ---------------------------------------------------------------------
  // The stream
  // ---------------------------------------------------------------------

  /**
   * The configuration object index.js reads on every write. Its `flatten`
   * property is written by the streams, so every stream built over the same
   * object shares it; the other properties are fixed here.
   */
  class SharedConfig {
    const config: Config
    var flatten: bool

    constructor (config: Config, flatten: bool)
      ensures this.config == config && this.flatten == flatten
    {
      this.config := config;
      this.flatten := flatten;
    }
  }

  /** The first argument, by `typeof`: a renderer function or the caller's configuration object. */
  datatype LegacyFirst = LegacyRenderer(renderer: Callable) | LegacyConfigArg(shared: SharedConfig)

  /** The same argument as the normalisation sees it. */
  function AsFirstArg(first: LegacyFirst): FirstArg {
    match first
    case LegacyRenderer(r) => RendererArg(r)
    case LegacyConfigArg(shared) => ConfigArg(shared.config)
  }

  /** The stream index.js returns, reading and writing its configuration object. */
  class LegacyStream {
    const env: Env
    const shared: SharedConfig
    var errors: seq<string>
    var pushed: seq<LegacyOutput>

    /**
     * A renderer function gets a fresh configuration object; a configuration
     * object is used itself. Either way its `flatten` is cleared.
     */
    constructor (env: Env, first: LegacyFirst, second: SecondArg, third: Option<Callable>)
      modifies if first.LegacyConfigArg? then {first.shared} else {}
      ensures this.env == env && errors == [] && pushed == []
      ensures NormalisedFrom(shared.config, AsFirstArg(first), second, third)
      ensures first.LegacyConfigArg? ==> shared == first.shared
      ensures first.LegacyRenderer? ==> fresh(shared)
      ensures !shared.flatten
    {
      this.env := env;
      if first.LegacyConfigArg? {
        shared := first.shared;
      } else {
        var c := NormaliseConfig(AsFirstArg(first), second, third);
        shared := new SharedConfig(c, false);
      }
      errors := [];
      pushed := [];
      new;
      shared.flatten := false;
    }

    /**
     * Writing one input appends what `LegacyRun` says it emits; a single file
     * sets the shared `flatten`, which later batches then see.
     */
    method Write(input: Input)
      modifies this, shared
      ensures shared.flatten == (old(shared.flatten) || (shared.config.renderer.Some? && input.Single?))
      ensures errors == old(errors) + LegacyRun(env, shared.config, old(shared.flatten), input).errors
      ensures pushed == old(pushed) + LegacyRun(env, shared.config, old(shared.flatten), input).pushed
    {
      var config := shared.config;
      if config.renderer.None? {
        errors := errors + [RendererRequired];
        return;
      }
      if input.Single? {
        shared.flatten := true;
        var r := LegacyConvert(env, config, true, input.file);
        if r.Failure? {
          errors := errors + [r.error];
        } else {
          pushed := pushed + [r.value];
        }
        return;
      }
      var merged := Merge(FileDataOf(env, config, shared.flatten), input.files);
      match merged
      case Failure(e) =>
        errors := errors + [e];
      case Success(data) =>
        pushed := pushed + [LegacyOutput(OutputPath(config.name), LegacyTree(data))];
    }
  }

  /**
   * Two streams over one configuration object: a single file written to the
   * first sets `flatten`, and building the second clears it again, so the
   * first stream's next batch is merged without it.
   */
  method SharedFlagReset(env: Env, shared: SharedConfig, file: File) returns (setByWrite: bool, afterSecond: bool)
    requires shared.config.renderer.Some?
    modifies shared
    ensures setByWrite && !afterSecond
  {
    var one := new LegacyStream(env, LegacyConfigArg(shared), OtherArg, None);
    one.Write(Single(file));
    setByWrite := shared.flatten;
    var two := new LegacyStream(env, LegacyConfigArg(shared), OtherArg, None);
    afterSecond := one.shared.flatten;
  }

  /** The batch loop: each file converted and parsed by `fileData`, then `data = extend(fileData, data)`. */
  method Merge(fileData: File -> Result<seq<Member>, string>, files: seq<File>) returns (r: Result<seq<Member>, string>)
    ensures r.Failure? <==> MapAll(fileData, files).Failure?
    ensures r.Failure? ==> r.error == MapAll(fileData, files).error
    ensures r.Success? ==> r.value == MergeAll(MapAll(fileData, files).value)
  {
    var data: seq<Member> := [];
    ghost var datas: seq<seq<Member>> := [];
    var i := 0;
    while i < |files|
      invariant 0 <= i <= |files|
      invariant MapAll(fileData, files[..i]) == Success(datas)
      invariant data == MergeAll(datas)
    {
      MapAllSnoc(fileData, files[..i], files[i]);
      assert files[..i + 1] == files[..i] + [files[i]];
      var next := fileData(files[i]);
      if next.Failure? {
        MapAllPrefixFails(fileData, files, i + 1);
        return Failure(next.error);
      }
      data := Extend(next.value, data);
      ghost var prev := datas;
      datas := datas + [next.value];
      assert datas[..|datas| - 1] == prev;
      i := i + 1;
    }
    assert files[..|files|] == files;
    return Success(data);
  }
}
