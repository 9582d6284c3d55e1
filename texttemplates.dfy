/** The `text/template` revision of the library (aeolic.go): a client holding
    an API key and the templates loaded from a directory, keyed by full path,
    and `parse`, which looks a template up and renders it with values copied
    verbatim. */
module TextTemplates {

  import opened Wrappers
  import Templates
  import Registry
  import Paths
  import Strs

  const NotFound := "template not found"

  /** `text/template` copies a value into the output as it is. */
  function Verbatim(s: string): string
  {
    s
  }

  // ---------------------------------------------------------------------------
  // parse

  /** What `parse` returns: the bytes (`None` for a nil slice) and the error. */
  function Render(templateName: string, templateMap: map<string, string>, data: map<string, string>): (r: (Option<string>, Option<string>))
    ensures templateName !in templateMap ==> r == (Some(""), Some(NotFound))
    ensures templateName in templateMap ==> r == Templates.Outcome(templateName, templateMap[templateName], data, Verbatim)
  {
    if templateName !in templateMap then (Some(""), Some(NotFound))
    else Templates.Outcome(templateName, templateMap[templateName], data, Verbatim)
  }

  /** `parse`: look the template up, compile it, execute it into a buffer. */
  method Parse(templateName: string, templateMap: map<string, string>, data: map<string, string>)
    returns (bytes: Option<string>, err: Option<string>)
    ensures (bytes, err) == Render(templateName, templateMap, data)
  {
    var slackBlock, ok := if templateName in templateMap then templateMap[templateName] else "", templateName in templateMap;
    if !ok {
      return Some(""), Some(NotFound);
    }
    bytes, err := Templates.Run(templateName, slackBlock, data, Verbatim);
  }

  /** Rendering succeeds exactly when the template is registered, compiles,
      and every key it references is in the data; it never fills a blank. */
  lemma RenderStrict(templateName: string, templateMap: map<string, string>, data: map<string, string>)
    ensures Render(templateName, templateMap, data).1.None? <==>
              templateName in templateMap && Templates.Compile(templateMap[templateName]).Success? &&
              forall i :: 0 <= i < |Templates.Compile(templateMap[templateName]).value| ==>
                var seg := Templates.Compile(templateMap[templateName]).value[i];
                !(seg.Field? && seg.key !in data)
  {
  }

  /** A field reference is replaced by its value: `{ "hello": "{{ .hello }}" }`
      with hello = world renders `{ "hello": "world" }`. */
  lemma RenderHello()
    ensures Render("basic", map["basic" := HelloSource()], map["hello" := "world"]) ==
              (Some("{ \"hello\": \"world\" }"), None)
  {
    HelloSegments();
    HelloExecutes();
  }

  lemma HelloExecutes()
    ensures Templates.Execute(HelloSegs(), map["hello" := "world"], Verbatim) == Success("{ \"hello\": \"world\" }")
  {
    var segs, data := HelloSegs(), map["hello" := "world"];
    assert Templates.Execute(segs[2..], data, Verbatim) == Success("\" }" + "");
    assert Templates.Execute(segs[1..], data, Verbatim) == Success("world" + ("\" }" + ""));
    assert Templates.Execute(segs, data, Verbatim) == Success("{ \"hello\": \"" + ("world" + ("\" }" + "")));
    assert "{ \"hello\": \"" + ("world" + ("\" }" + "")) == "{ \"hello\": \"world\" }";
  }

  function HelloSource(): string
  {
    "{ \"hello\": \"{{ .hello }}\" }"
  }

  function HelloSegs(): seq<Templates.Segment>
  {
    [Templates.Text("{ \"hello\": \""), Templates.Field("hello"), Templates.Text("\" }")]
  }

  lemma HelloWellFormed()
    ensures Templates.WellFormed(HelloSegs())
  {
    var t0, t2 := "{ \"hello\": \"", "\" }";
    assert Templates.NoPair(t0, '{', '{') by {
      forall i, j | 0 <= i < j < |t0| && j == i + 1 ensures !(t0[i] == '{' && t0[j] == '{') {
        assert t0[j] != '{';
      }
    }
    assert Templates.NoPair(t2, '{', '{');
    assert Templates.IsIdentifier("hello");
  }

  lemma HelloPrinted()
    ensures Templates.Print(HelloSegs()) == HelloSource()
  {
    var segs, t0, t2 := HelloSegs(), "{ \"hello\": \"", "\" }";
    assert Templates.Print(segs[2..]) == t2 + "";
    assert Templates.Print(segs[1..]) == "{{ ." + "hello" + " }}" + (t2 + "");
    assert Templates.Print(segs) == t0 + ("{{ ." + "hello" + " }}" + (t2 + ""));
  }

  /** The greeting template compiles to text, the field, text. */
  lemma HelloSegments()
    ensures Templates.Compile(HelloSource()) == Success(HelloSegs())
  {
    HelloWellFormed();
    HelloPrinted();
    Templates.CompilePrint(HelloSegs());
  }

  // ---------------------------------------------------------------------------
  // withTemplates, New, SendMessage

  function LoaderFor(dirPath: string, fileSuffix: string, read: string -> Result<string, string>): Registry.Loader
  {
    Registry.Loader(Registry.FullPath, dirPath, fileSuffix, read)
  }

  /** What `withTemplates` returns, given what reading the directory gave. */
  function Loaded(dirPath: string, fileSuffix: string, listing: Result<seq<string>, string>,
                  read: string -> Result<string, string>): Registry.Loaded
  {
    match listing
    case Failure(e) => Registry.Loaded(map[], Some(e))
    case Success(files) => Registry.Load(LoaderFor(dirPath, fileSuffix, read), files)
  }

  /** `withTemplates`: list the directory, then read every file whose name has
      the suffix into the map under its joined path, giving up at the first
      failing read with what was loaded so far. */
  method WithTemplates(dirPath: string, fileSuffix: string, listing: Result<seq<string>, string>,
                       read: string -> Result<string, string>)
    returns (rootTemplates: map<string, string>, err: Option<string>)
    ensures Registry.Loaded(rootTemplates, err) == Loaded(dirPath, fileSuffix, listing, read)
  {
    rootTemplates := map[];
    if listing.Failure? {
      return rootTemplates, Some(listing.error);
    }
    var files := listing.value;
    ghost var l := LoaderFor(dirPath, fileSuffix, read);
    for i := 0 to |files|
      invariant Registry.Load(l, files) == Registry.LoadFrom(l, rootTemplates, files[i..])
    {
      assert files[i..][1..] == files[i + 1..];
      var fileLocation := Paths.Join(dirPath, files[i]);
      if Strs.HasSuffix(files[i], fileSuffix) {
        var data := read(Paths.Clean(fileLocation));
        if data.Failure? {
          return rootTemplates, Some(data.error);
        }
        rootTemplates := rootTemplates[fileLocation := data.value];
      }
    }
    return rootTemplates, None;
  }

  /** With a listing of plain file names and no failing read, the map holds
      exactly one template per suffixed file, under its joined path, with the
      contents read from that same path. */
  lemma LoadedByPath(dirPath: string, fileSuffix: string, files: seq<string>, read: string -> Result<string, string>)
    requires forall i :: 0 <= i < |files| ==> Paths.PlainName(files[i])
    requires forall i :: 0 <= i < |files| && Strs.HasSuffix(files[i], fileSuffix) ==>
               read(Paths.Join(dirPath, files[i])).Success?
    ensures Loaded(dirPath, fileSuffix, Success(files), read).err == None
    ensures forall k :: k in Loaded(dirPath, fileSuffix, Success(files), read).templates <==>
              exists i :: 0 <= i < |files| && Strs.HasSuffix(files[i], fileSuffix) && Paths.Join(dirPath, files[i]) == k
    ensures forall i :: 0 <= i < |files| && Strs.HasSuffix(files[i], fileSuffix) ==>
              Loaded(dirPath, fileSuffix, Success(files), read).templates[Paths.Join(dirPath, files[i])] ==
              read(Paths.Join(dirPath, files[i])).value
  {
    var l := LoaderFor(dirPath, fileSuffix, read);
    forall i | 0 <= i < |files| ensures Registry.PathOf(l, files[i]) == Paths.Join(dirPath, files[i]) {
      Registry.FullPathReadsKey(l, files[i]);
    }
    Registry.LoadFromShape(l, map[], files);
    var m := Registry.Inserted(l, map[], files);
    forall k ensures k in m <==> exists i :: 0 <= i < |files| && Strs.HasSuffix(files[i], fileSuffix) && Paths.Join(dirPath, files[i]) == k {
      Registry.InsertedKeys(l, map[], files, k);
    }
    Registry.FullPathDistinct(l, files);
    forall i | 0 <= i < |files| && Strs.HasSuffix(files[i], fileSuffix)
      ensures m[Paths.Join(dirPath, files[i])] == read(Paths.Join(dirPath, files[i])).value
    {
      Registry.InsertedValue(l, map[], files, i);
    }
  }

  datatype Client = Client(apiKey: string, templates: map<string, string>)

  /** `New`: load the ".tmpl" templates of the directory; on failure the zero
      Client and the error, otherwise a Client holding the key and the map. */
  function New(apiKey: string, templateDir: string, listing: Result<seq<string>, string>,
               read: string -> Result<string, string>): (r: (Client, Option<string>))
    ensures r.1 == Loaded(templateDir, ".tmpl", listing, read).err
    ensures r.1.Some? ==> r.0 == Client("", map[])
    ensures r.1.None? ==> r.0 == Client(apiKey, Loaded(templateDir, ".tmpl", listing, read).templates)
  {
    var loaded := Loaded(templateDir, ".tmpl", listing, read);
    if loaded.err.Some? then (Client("", map[]), loaded.err)
    else (Client(apiKey, loaded.templates), None)
  }

  /** A directory that cannot be listed yields the zero Client. */
  lemma NewUnlistable(apiKey: string, templateDir: string, e: string, read: string -> Result<string, string>)
    ensures New(apiKey, templateDir, Failure(e), read) == (Client("", map[]), Some(e))
  {
  }

  /** `SendMessage` is a stub: whatever its inputs, it fails with
      "not implemented". */
  function SendMessage<T>(c: Client, channel: string, templateName: string, body: T): (err: Option<string>)
    ensures err == Some("not implemented")
  {
    Some("not implemented")
  }
}
