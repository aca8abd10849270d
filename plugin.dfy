/**
 * The plugin's entry point (`markdownToJSON` in lib/plugin.js): argument
 * normalisation, and what one write of a file or of a buffered list of
 * files emits: errors, and either the converted files or one consolidated
 * file. Promise chains are read as sequential composition; a rejection
 * anywhere ends the write with that one error.
 */
module Plugin {
  import opened Wrappers
  import opened Json
  import opened Strings
  import opened Consolidate
  import opened Document

  const RendererRequired := "Markdown renderer function required"
  const NotValidJson := " is not valid JSON"

  // ---------------------------------------------------------------------
  // Configuration
  // ---------------------------------------------------------------------

  /** The first argument, by `typeof`: a renderer function or a configuration object. */
  datatype FirstArg = RendererArg(renderer: Callable) | ConfigArg(config: Config)

  /** The second argument, by `typeof`: a name, a transform, or anything else. */
  datatype SecondArg = NameArg(name: string) | TransformArg(transform: Callable) | OtherArg

  /**
   * `markdownToJSON(configArg, name, transform)`'s normalisation: a
   * configuration object is used as given (the other arguments are ignored);
   * a renderer function becomes `{renderer}`, a string second argument the
   * name, a function second argument the transform, and a function third
   * argument overrides the transform.
   */
  predicate NormalisedFrom(config: Config, first: FirstArg, second: SecondArg, third: Option<Callable>) {
    && (first.ConfigArg? ==> config == first.config)
    && (first.RendererArg? ==>
      && config.renderer == Some(first.renderer)
      && (config.name.Some? <==> second.NameArg?)
      && (second.NameArg? ==> config.name == Some(second.name))
      && (third.Some? ==> config.transform == third)
      && (third.None? ==> (config.transform.Some? <==> second.TransformArg?))
      && (third.None? && second.TransformArg? ==> config.transform == Some(second.transform))
      && !config.stripTitle && !config.flattenIndex)
  }

  /** The arguments determine the configuration completely. */
  lemma NormalisedUnique(c1: Config, c2: Config, first: FirstArg, second: SecondArg, third: Option<Callable>)
    requires NormalisedFrom(c1, first, second, third) && NormalisedFrom(c2, first, second, third)
    ensures c1 == c2
  {
  }

  method NormaliseConfig(first: FirstArg, second: SecondArg, third: Option<Callable>) returns (config: Config)
    ensures NormalisedFrom(config, first, second, third)
  {
    if first.RendererArg? {
      config := Config(Some(first.renderer), None, None, false, false);
      if second.NameArg? {
        config := config.(name := Some(second.name));
      }
      if second.TransformArg? {
        config := config.(transform := Some(second.transform));
      }
      if third.Some? {
        config := config.(transform := third);
      }
    } else {
      config := first.config;
    }
  }

  // ---------------------------------------------------------------------
  // One write
  // ---------------------------------------------------------------------

  /** What is written to the stream: one file, or a list of files buffered upstream. */
  datatype Input = Single(file: File) | Batch(files: seq<File>)

  /** What one write emits: error messages and pushed files, each in order. */
  datatype Emitted = Emitted(errors: seq<string>, pushed: seq<Output>)

  function InputFiles(input: Input): seq<File> {
    match input
    case Single(f) => [f]
    case Batch(fs) => fs
  }

  /** `a` is `b` with some elements left out, the rest in order. */
  predicate IsSubsequence<T(==)>(a: seq<T>, b: seq<T>)
    decreases |b|
  {
    if a == [] then true
    else if b == [] then false
    else if a[0] == b[0] then IsSubsequence(a[1..], b[1..])
    else IsSubsequence(a, b[1..])
  }

  /** The content sniffing of every file, then the filter keeping text files. */
  function TextFiles(env: Env, files: seq<File>): (r: Result<seq<File>, string>)
    ensures r.Success? ==> |r.value| <= |files|
    decreases |files|
  {
    if files == [] then Success([])
    else
      match env.isText(files[0])
      case Failure(e) => Failure(e)
      case Success(text) =>
        match TextFiles(env, files[1..])
        case Failure(e) => Failure(e)
        case Success(rest) => Success(if text then [files[0]] + rest else rest)
  }

  /**
   * Sniffing fails with the first file's error whose sniffing fails;
   * otherwise exactly the text files survive, in their input order.
   */
  lemma {:induction false} TextFilesSpec(env: Env, files: seq<File>)
    ensures var r := TextFiles(env, files);
      && (r.Failure? <==> exists i :: 0 <= i < |files| && env.isText(files[i]).Failure?)
      && (r.Failure? ==> exists i :: 0 <= i < |files| && env.isText(files[i]) == Failure(r.error)
                            && forall j :: 0 <= j < i ==> env.isText(files[j]).Success?)
      && (r.Success? ==>
            && IsSubsequence(r.value, files)
            && (forall f :: f in r.value ==> env.isText(f) == Success(true))
            && (forall i :: 0 <= i < |files| && env.isText(files[i]) == Success(true) ==> files[i] in r.value))
    decreases |files|
  {
    if files != [] {
      var tail := files[1..];
      TextFilesSpec(env, tail);
      var r := TextFiles(env, files);
      if r.Failure? && env.isText(files[0]).Success? {
        var i :| 0 <= i < |tail| && env.isText(tail[i]) == Failure(r.error)
                 && forall j :: 0 <= j < i ==> env.isText(tail[j]).Success?;
        assert env.isText(files[i + 1]) == Failure(r.error);
        assert forall j :: 1 <= j < i + 1 ==> env.isText(files[j]) == env.isText(tail[j - 1]);
      }
      if r.Success? {
        forall i | 0 <= i < |files| && env.isText(files[i]) == Success(true) ensures files[i] in r.value {
          if i > 0 {
            assert files[i] == tail[i - 1];
          }
        }
        if env.isText(files[0]) == Success(true) {
          assert r.value[1..] == TextFiles(env, tail).value;
        }
      }
      if !r.Failure? {
        forall i | 0 <= i < |files| ensures env.isText(files[i]).Success? {
          if i > 0 {
            assert files[i] == tail[i - 1];
          }
        }
      } else if env.isText(files[0]).Failure? {
        assert env.isText(files[0]) == Failure(r.error);
      }
    }
  }

  /** Each file occurs among the text files as often as it was written if it is text, else never. */
  lemma {:induction false} TextFilesCounts(env: Env, files: seq<File>)
    requires TextFiles(env, files).Success?
    ensures forall f :: multiset(TextFiles(env, files).value)[f] ==
                          if env.isText(f) == Success(true) then multiset(files)[f] else 0
    decreases |files|
  {
    if files != [] {
      var tail := files[1..];
      assert files == [files[0]] + tail;
      TextFilesCounts(env, tail);
    }
  }

  /**
   * `Promise.all(xs.map(f))` read sequentially: every result in order, or
   * the first rejection.
   */
  function MapAll<A, B>(f: A -> Result<B, string>, xs: seq<A>): (r: Result<seq<B>, string>)
    ensures r.Success? ==> |r.value| == |xs|
    decreases |xs|
  {
    if xs == [] then Success([])
    else
      match f(xs[0])
      case Failure(e) => Failure(e)
      case Success(y) =>
        match MapAll(f, xs[1..])
        case Failure(e) => Failure(e)
        case Success(rest) => Success([y] + rest)
  }

  /**
   * Mapping succeeds exactly when every call does, giving the results
   * position by position; otherwise it fails with the first failing call's error.
   */
  lemma {:induction false} MapAllSpec<A, B>(f: A -> Result<B, string>, xs: seq<A>)
    ensures var r := MapAll(f, xs);
      && (r.Success? <==> forall i :: 0 <= i < |xs| ==> f(xs[i]).Success?)
      && (r.Success? ==> |r.value| == |xs| && forall i :: 0 <= i < |xs| ==> f(xs[i]) == Success(r.value[i]))
      && (r.Failure? ==> exists i :: 0 <= i < |xs| && f(xs[i]) == Failure(r.error)
                            && forall j :: 0 <= j < i ==> f(xs[j]).Success?)
    decreases |xs|
  {
    if xs != [] {
      var tail := xs[1..];
      MapAllSpec(f, tail);
      var r := MapAll(f, xs);
      forall i | 1 <= i < |xs| ensures f(xs[i]) == f(tail[i - 1]) {
        assert xs[i] == tail[i - 1];
      }
      if r.Failure? && f(xs[0]).Success? {
        var i :| 0 <= i < |tail| && f(tail[i]) == Failure(r.error) && forall j :: 0 <= j < i ==> f(tail[j]).Success?;
        assert f(xs[i + 1]) == Failure(r.error);
      }
    }
  }

  /** Mapping one more element: the earlier failure, else this element's failure, else one more result. */
  lemma {:induction false} MapAllSnoc<A, B>(f: A -> Result<B, string>, xs: seq<A>, x: A)
    ensures MapAll(f, xs + [x]) ==
      match MapAll(f, xs)
      case Failure(e) => Failure(e)
      case Success(ys) => match f(x) case Failure(e) => Failure(e) case Success(y) => Success(ys + [y])
    decreases |xs|
  {
    if xs == [] {
      assert [] + [x] == [x];
      assert [x][1..] == [];
      if f(x).Success? {
        assert [f(x).value] + [] == [] + [f(x).value];
      }
    } else {
      assert (xs + [x])[1..] == xs[1..] + [x];
      assert (xs + [x])[0] == xs[0];
      MapAllSnoc(f, xs[1..], x);
      if f(xs[0]).Success? && MapAll(f, xs[1..]).Success? && f(x).Success? {
        var h, ys, y := f(xs[0]).value, MapAll(f, xs[1..]).value, f(x).value;
        assert [h] + (ys + [y]) == ([h] + ys) + [y];
      }
    }
  }

  /** A failure within a prefix is the failure of the whole list. */
  lemma {:induction false} MapAllPrefixFails<A, B>(f: A -> Result<B, string>, xs: seq<A>, j: nat)
    requires j <= |xs| && MapAll(f, xs[..j]).Failure?
    ensures MapAll(f, xs) == Failure(MapAll(f, xs[..j]).error)
    decreases j
  {
    assert xs[..j] != [];
    assert xs[..j][0] == xs[0];
    if f(xs[0]).Success? {
      assert xs[..j][1..] == xs[1..][..j - 1];
      MapAllPrefixFails(f, xs[1..], j - 1);
    }
  }

  /** `Promise.all(files.map(file => toJSON(file, config)))`. */
  function ConvertAll(env: Env, config: Config, files: seq<File>): (r: Result<seq<Output>, string>)
    ensures r.Success? <==> forall i :: 0 <= i < |files| ==> Convert(env, config, files[i]).Success?
    ensures r.Success? ==>
              && |r.value| == |files|
              && forall i :: 0 <= i < |files| ==> Convert(env, config, files[i]) == Success(r.value[i])
  {
    MapAllSpec(file => Convert(env, config, file), files);
    MapAll(file => Convert(env, config, file), files)
  }

  /** The invalid outputs, in order. */
  function Invalids(outs: seq<Output>): (r: seq<Output>)
    ensures forall o :: o in r ==> o in outs && o.Invalid()
    ensures forall o :: o in outs && o.Invalid() ==> o in r
    decreases |outs|
  {
    if outs == [] then []
    else
      var last := outs[|outs| - 1];
      assert outs == outs[..|outs| - 1] + [last];
      Invalids(outs[..|outs| - 1]) + if last.Invalid() then [last] else []
  }

  /** The valid outputs, in order. */
  function Valids(outs: seq<Output>): (r: seq<Output>)
    ensures forall o :: o in r ==> o in outs && !o.Invalid()
    ensures forall o :: o in outs && !o.Invalid() ==> o in r
    decreases |outs|
  {
    if outs == [] then []
    else
      var last := outs[|outs| - 1];
      assert outs == outs[..|outs| - 1] + [last];
      Valids(outs[..|outs| - 1]) + if last.Invalid() then [] else [last]
  }

  /** The outputs split into valid and invalid ones without loss. */
  lemma {:induction false} PartitionSizes(outs: seq<Output>)
    ensures |Valids(outs)| + |Invalids(outs)| == |outs|
    ensures multiset(Valids(outs)) + multiset(Invalids(outs)) == multiset(outs)
    decreases |outs|
  {
    if outs != [] {
      var prefix, last := outs[..|outs| - 1], outs[|outs| - 1];
      PartitionSizes(prefix);
      assert outs == prefix + [last];
      PartitionLast(prefix, last);
    }
  }

  /** Appending one element to a sequence and to one of two parts that split it keeps the split. */
  lemma SplitCounts<T>(a: seq<T>, b: seq<T>, c: seq<T>, x: T, toB: bool)
    requires multiset(a) + multiset(b) == multiset(c)
    ensures multiset(a + if toB then [] else [x]) + multiset(b + if toB then [x] else []) == multiset(c + [x])
  {
  }

  /** Appending one output appends it to exactly one side of the partition. */
  lemma PartitionLast(prefix: seq<Output>, last: Output)
    requires multiset(Valids(prefix)) + multiset(Invalids(prefix)) == multiset(prefix)
    ensures Invalids(prefix + [last]) == Invalids(prefix) + if last.Invalid() then [last] else []
    ensures Valids(prefix + [last]) == Valids(prefix) + if last.Invalid() then [] else [last]
    ensures multiset(Valids(prefix + [last])) + multiset(Invalids(prefix + [last])) == multiset(prefix + [last])
  {
    assert (prefix + [last])[..|prefix|] == prefix;
    SplitCounts(Valids(prefix), Invalids(prefix), prefix, last, last.Invalid());
  }

  /** The valid outputs keep their relative order. */
  lemma {:induction false} ValidsInOrder(outs: seq<Output>)
    ensures IsSubsequence(Valids(outs), outs)
    decreases |outs|
  {
    if outs != [] {
      var init, last := outs[..|outs| - 1], outs[|outs| - 1];
      ValidsInOrder(init);
      assert outs == init + [last];
      assert outs[..|outs| - 1] == init;
      if !last.Invalid() {
        assert Valids(outs) == Valids(init) + [last];
        SubsequenceSnoc(Valids(init), init, last);
      } else {
        assert Valids(outs) == Valids(init);
        SubsequenceExtend(Valids(init), init, [last]);
      }
    }
  }

  /** The invalid outputs keep their relative order too. */
  lemma {:induction false} InvalidsInOrder(outs: seq<Output>)
    ensures IsSubsequence(Invalids(outs), outs)
    decreases |outs|
  {
    if outs != [] {
      var init, last := outs[..|outs| - 1], outs[|outs| - 1];
      InvalidsInOrder(init);
      assert outs == init + [last];
      assert outs[..|outs| - 1] == init;
      if last.Invalid() {
        assert Invalids(outs) == Invalids(init) + [last];
        SubsequenceSnoc(Invalids(init), init, last);
      } else {
        assert Invalids(outs) == Invalids(init);
        SubsequenceExtend(Invalids(init), init, [last]);
      }
    }
  }

  lemma {:induction false} SubsequenceSnoc<T>(a: seq<T>, b: seq<T>, x: T)
    requires IsSubsequence(a, b)
    ensures IsSubsequence(a + [x], b + [x])
    decreases |b|
  {
    if a == [] {
      LastIsSubsequence(b, x);
      assert a + [x] == [x];
    } else if a[0] == b[0] {
      assert (a + [x])[1..] == a[1..] + [x];
      assert (b + [x])[1..] == b[1..] + [x];
      SubsequenceSnoc(a[1..], b[1..], x);
    } else {
      assert (b + [x])[1..] == b[1..] + [x];
      SubsequenceSnoc(a, b[1..], x);
    }
  }

  lemma {:induction false} SubsequenceExtend<T>(a: seq<T>, b: seq<T>, c: seq<T>)
    requires IsSubsequence(a, b)
    ensures IsSubsequence(a, b + c)
    decreases |b|
  {
    if a != [] {
      assert (b + c)[1..] == b[1..] + c;
      SubsequenceExtend(if a[0] == b[0] then a[1..] else a, b[1..], c);
    }
  }

  /** A last element alone is a subsequence of any sequence ending with it. */
  lemma {:induction false} LastIsSubsequence<T>(b: seq<T>, x: T)
    ensures IsSubsequence([x], b + [x])
    decreases |b|
  {
    if b == [] {
      assert [x][1..] == [];
    } else if b[0] == x {
      assert [x][1..] == [];
    } else {
      assert (b + [x])[1..] == b[1..] + [x];
      LastIsSubsequence(b[1..], x);
    }
  }

  /** Extending the outputs by one extends the messages and the valid outputs by what it contributes. */
  lemma ReportStep(outs: seq<Output>, i: nat)
    requires i < |outs|
    ensures InvalidMessages(outs[..i + 1]) ==
              InvalidMessages(outs[..i]) + if outs[i].Invalid() then [InvalidMessage(outs[i])] else []
    ensures Valids(outs[..i + 1]) == Valids(outs[..i]) + if outs[i].Invalid() then [] else [outs[i]]
  {
    assert outs[..i + 1][..i] == outs[..i];
  }

  /** The error emitted for an invalid file: its base name and " is not valid JSON". */
  function InvalidMessage(o: Output): string {
    Basename(Basename(o.path)) + NotValidJson
  }

  /** One message per invalid output, in order. */
  function InvalidMessages(outs: seq<Output>): (r: seq<string>)
    ensures |r| == |Invalids(outs)|
    ensures forall i :: 0 <= i < |r| ==> r[i] == InvalidMessage(Invalids(outs)[i])
    decreases |outs|
  {
    if outs == [] then []
    else
      var prefix, last := outs[..|outs| - 1], outs[|outs| - 1];
      var extra := if last.Invalid() then [InvalidMessage(last)] else [];
      assert Invalids(outs) == Invalids(prefix) + if last.Invalid() then [last] else [];
      InvalidMessages(prefix) + extra
  }

  /**
   * Going through the outputs in order: one error message per invalid output,
   * and the valid outputs, in order.
   */
  method Partition(outs: seq<Output>) returns (messages: seq<string>, valid: seq<Output>)
    ensures messages == InvalidMessages(outs)
    ensures valid == Valids(outs)
  {
    valid := [];
    messages := [];
    var i := 0;
    while i < |outs|
      invariant 0 <= i <= |outs|
      invariant messages == InvalidMessages(outs[..i])
      invariant valid == Valids(outs[..i])
    {
      ReportStep(outs, i);
      if outs[i].Invalid() {
        messages := messages + [InvalidMessage(outs[i])];
      } else {
        valid := valid + [outs[i]];
      }
      i := i + 1;
    }
    assert outs[..|outs|] == outs;
  }

  /** The consolidation entries: each valid output's relative path and parsed contents. */
  function Entries(valid: seq<Output>): (es: seq<Entry>)
    requires forall o :: o in valid ==> !o.Invalid()
    ensures |es| == |valid|
    ensures forall i :: 0 <= i < |valid| ==> es[i] == Entry(valid[i].relative, valid[i].Value())
  {
    seq(|valid|, i requires 0 <= i < |valid| => Entry(valid[i].relative, valid[i].Value()))
  }

  /**
   * `consolidateFiles`: one file at the configured name holding the tree of
   * every valid output, built as the code builds it (sorted flat names, then
   * expanded; inner levels are not re-sorted).
   */
  function Consolidated(config: Config, valid: seq<Output>): (o: Output)
    requires forall o :: o in valid ==> !o.Invalid()
    ensures o.path == OutputPath(config.name) && o.relative == o.path[1..]
    ensures o.contents.Data? && o.contents.value.JObj? && !o.Invalid()
  {
    var path := OutputPath(config.name);
    Output(path, path[1..], Data(ExpandedSortedFlat(Entries(valid), config.flattenIndex)))
  }

  /**
   * The consolidated file holds each valid output's parsed contents at the
   * path its relative name spells, unless a later output takes the same path,
   * another output's path lies below it, or an output above it is an array
   * (which swallows the rest of the path) or an object with a field named
   * after the next segment (which set-value merges).
   */
  lemma ConsolidatedHolds(config: Config, valid: seq<Output>, i: nat)
    requires forall o :: o in valid ==> !o.Invalid()
    requires i < |valid|
    requires forall j :: i < j < |valid| ==>
               PathKey(valid[j].relative, config.flattenIndex) != PathKey(valid[i].relative, config.flattenIndex)
    requires forall j :: 0 <= j < |valid| ==>
               !IsStrictPrefix(PathKey(valid[i].relative, config.flattenIndex), PathKey(valid[j].relative, config.flattenIndex))
    requires forall j :: 0 <= j < |valid| ==>
               ClearsBelow(PathKey(valid[j].relative, config.flattenIndex), valid[j].Value(), PathKey(valid[i].relative, config.flattenIndex))
    ensures Lookup(Consolidated(config, valid).contents.value, PathKey(valid[i].relative, config.flattenIndex))
              == Some(valid[i].Value())
  {
    var es := Entries(valid);
    RecordInTree(es, config.flattenIndex, i);
  }

  /** What one write emits. */
  function Run(env: Env, config: Config, input: Input): (e: Emitted)
    ensures forall o :: o in e.pushed ==> !o.Invalid()
    ensures input.Batch? ==> |e.pushed| <= 1
    ensures config.renderer.None? ==> e.errors == [RendererRequired] && e.pushed == []
  {
    if config.renderer.None? then Emitted([RendererRequired], [])
    else
      match TextFiles(env, InputFiles(input))
      case Failure(e) => Emitted([e], [])
      case Success(texts) =>
        match ConvertAll(env, config, texts)
        case Failure(e) => Emitted([e], [])
        case Success(outs) =>
          var errors := InvalidMessages(outs);
          if input.Batch? then Emitted(errors, [Consolidated(config, Valids(outs))])
          else Emitted(errors, Valids(outs))
  }

  /** Without a renderer function a write emits one error and nothing else. */
  lemma RunWithoutRenderer(env: Env, config: Config, input: Input)
    requires config.renderer.None?
    ensures Run(env, config, input) == Emitted([RendererRequired], [])
  {
  }

  /**
   * When nothing is rejected: one error per invalid `.json` file, in order;
   * a batch pushes exactly the consolidated file; a single file is pushed
   * exactly when it is valid; and no pushed file is invalid.
   */
  lemma RunOutcome(env: Env, config: Config, input: Input, texts: seq<File>, outs: seq<Output>)
    requires config.renderer.Some?
    requires TextFiles(env, InputFiles(input)) == Success(texts)
    requires ConvertAll(env, config, texts) == Success(outs)
    ensures var e := Run(env, config, input);
      && |e.errors| == |Invalids(outs)|
      && (forall i :: 0 <= i < |e.errors| ==> e.errors[i] == InvalidMessage(Invalids(outs)[i]))
      && (forall o :: o in e.pushed ==> !o.Invalid())
      && (input.Batch? ==> e.pushed == [Consolidated(config, Valids(outs))])
      && (input.Single? ==> e.pushed == Valids(outs) && |e.pushed| <= 1)
  {
    if input.Single? {
      TextFilesSpec(env, [input.file]);
      MapAllSpec(file => Convert(env, config, file), texts);
      SingleAtMostOne(env, input.file, texts);
      PartitionSizes(outs);
    }
  }

  lemma SingleAtMostOne(env: Env, f: File, texts: seq<File>)
    requires TextFiles(env, [f]) == Success(texts)
    ensures |texts| <= 1
  {
    assert [f][1..] == [];
  }

  /** Only `.json` inputs can be reported invalid: every converted document is valid. */
  lemma InvalidOnlyJson(env: Env, config: Config, files: seq<File>, outs: seq<Output>)
    requires ConvertAll(env, config, files) == Success(outs)
    ensures |outs| == |files|
    ensures forall i :: 0 <= i < |outs| && outs[i].Invalid() ==> Extname(files[i].path) == JsonExt
  {
    forall i | 0 <= i < |outs| && outs[i].Invalid() ensures Extname(files[i].path) == JsonExt {
      assert Convert(env, config, files[i]) == Success(outs[i]);
    }
  }

  /** A write whose sniffing or conversion is rejected emits that one error and pushes nothing. */
  lemma RunRejected(env: Env, config: Config, input: Input)
    requires config.renderer.Some?
    requires || TextFiles(env, InputFiles(input)).Failure?
             || ConvertAll(env, config, TextFiles(env, InputFiles(input)).value).Failure?
    ensures |Run(env, config, input).errors| == 1 && Run(env, config, input).pushed == []
  {
  }

  // ---------------------------------------------------------------------
  // The stream
  // ---------------------------------------------------------------------

  /** The transform stream `markdownToJSON` returns, with what it has emitted so far. */
  class PluginStream {
    const env: Env
    const config: Config
    var errors: seq<string>
    var pushed: seq<Output>

    constructor (env: Env, first: FirstArg, second: SecondArg, third: Option<Callable>)
      ensures this.env == env && errors == [] && pushed == []
      ensures NormalisedFrom(config, first, second, third)
    {
      this.env := env;
      var c := NormaliseConfig(first, second, third);
      config := c;
      errors := [];
      pushed := [];
    }

    /** Writing one input appends what `Run` says it emits. */
    method Write(input: Input)
      modifies this
      ensures errors == old(errors) + Run(env, config, input).errors
      ensures pushed == old(pushed) + Run(env, config, input).pushed
    {
      if config.renderer.None? {
        errors := errors + [RendererRequired];
        return;
      }
      var sniffed := TextFiles(env, InputFiles(input));
      if sniffed.Failure? {
        errors := errors + [sniffed.error];
        return;
      }
      var converted := ConvertAll(env, config, sniffed.value);
      if converted.Failure? {
        errors := errors + [converted.error];
        return;
      }
      var messages, valid := Partition(converted.value);
      errors := errors + messages;
      if input.Batch? {
        pushed := pushed + [Consolidated(config, valid)];
      } else {
        pushed := pushed + valid;
      }
    }
  }
}
