/** The `html/template` revision of the library (parse.go): `parse` names the
    missing template in its error and escapes every substituted value for HTML
    text, and `withTemplates` files each template under the name left by
    `strings.TrimRight(name, suffix)`. */
module HtmlTemplates {

  import opened Wrappers
  import Templates
  import Registry
  import Paths
  import Strs

  function NotFound(templateName: string): string
  {
    "template " + templateName + " does not exist"
  }

  // ---------------------------------------------------------------------------
  // escaping a value in HTML text

  /** The characters html/template's text escaper rewrites. */
  predicate Special(c: char)
  {
    c == '\0' || c == '"' || c == '&' || c == '\'' || c == '+' || c == '<' || c == '>'
  }

  function EscapeChar(c: char): (r: string)
    ensures forall i :: 0 <= i < |r| ==> !Special(r[i]) || r[i] == '&'
  {
    if c == '\0' then "\U{FFFD}"
    else if c == '"' then "&#34;"
    else if c == '&' then "&amp;"
    else if c == '\'' then "&#39;"
    else if c == '+' then "&#43;"
    else if c == '<' then "&lt;"
    else if c == '>' then "&gt;"
    else [c]
  }

  /** The escaper html/template applies to a value in HTML text: each special
      character becomes an entity, NUL becomes U+FFFD. */
  function HtmlEscape(s: string): string
  {
    if s == [] then "" else EscapeChar(s[0]) + HtmlEscape(s[1..])
  }

  /** No special character but the '&' opening an entity survives escaping. */
  lemma {:induction false} EscapedIsSafe(s: string)
    ensures forall i :: 0 <= i < |HtmlEscape(s)| ==> !Special(HtmlEscape(s)[i]) || HtmlEscape(s)[i] == '&'
  {
    if s != [] {
      EscapedIsSafe(s[1..]);
      var head, tail := EscapeChar(s[0]), HtmlEscape(s[1..]);
      assert HtmlEscape(s) == head + tail;
      forall i | 0 <= i < |head + tail| ensures !Special((head + tail)[i]) || (head + tail)[i] == '&' {
        if i >= |head| {
          assert (head + tail)[i] == tail[i - |head|];
        }
      }
    }
  }

  /** A value without special characters is left as it is. */
  lemma {:induction false} EscapePlain(s: string)
    requires forall i :: 0 <= i < |s| ==> !Special(s[i])
    ensures HtmlEscape(s) == s
  {
    if s != [] {
      assert forall i :: 0 <= i < |s[1..]| ==> s[1..][i] == s[i + 1];
      EscapePlain(s[1..]);
      assert [s[0]] + s[1..] == s;
    }
  }

  predicate HasPrefix(s: string, p: string)
  {
    |p| <= |s| && s[..|p|] == p
  }

  /** Reading the entities back. */
  function Unescape(s: string): string
    decreases |s|
  {
    if s == [] then ""
    else if HasPrefix(s, "&#34;") then "\"" + Unescape(s[5..])
    else if HasPrefix(s, "&amp;") then "&" + Unescape(s[5..])
    else if HasPrefix(s, "&#39;") then "'" + Unescape(s[5..])
    else if HasPrefix(s, "&#43;") then "+" + Unescape(s[5..])
    else if HasPrefix(s, "&lt;") then "<" + Unescape(s[4..])
    else if HasPrefix(s, "&gt;") then ">" + Unescape(s[4..])
    else [s[0]] + Unescape(s[1..])
  }

  lemma UnescapeOne(c: char, rest: string)
    requires c != '\0'
    ensures Unescape(EscapeChar(c) + rest) == [c] + Unescape(rest)
  {
    var e := EscapeChar(c);
    var s := e + rest;
    assert s[..|e|] == e && s[|e|..] == rest;
    if !Special(c) {
      assert e == [c];
      assert s[0] == c && s[0] != '&';
      assert !HasPrefix(s, "&#34;") && !HasPrefix(s, "&amp;") && !HasPrefix(s, "&#39;") && !HasPrefix(s, "&#43;");
      assert !HasPrefix(s, "&lt;") && !HasPrefix(s, "&gt;");
      assert s[1..] == rest;
    } else if c == '"' {
      assert HasPrefix(s, "&#34;");
    } else if c == '&' {
      assert HasPrefix(s, "&amp;") && !HasPrefix(s, "&#34;");
    } else if c == '\'' {
      assert HasPrefix(s, "&#39;") && !HasPrefix(s, "&#34;") && !HasPrefix(s, "&amp;");
    } else if c == '+' {
      assert HasPrefix(s, "&#43;") && !HasPrefix(s, "&#34;") && !HasPrefix(s, "&amp;") && !HasPrefix(s, "&#39;");
    } else if c == '<' {
      assert s[1] == 'l';
      assert HasPrefix(s, "&lt;") && !HasPrefix(s, "&#34;") && !HasPrefix(s, "&amp;") && !HasPrefix(s, "&#39;") && !HasPrefix(s, "&#43;");
    } else {
      assert c == '>';
      assert s[1] == 'g';
      assert HasPrefix(s, "&gt;") && !HasPrefix(s, "&#34;") && !HasPrefix(s, "&amp;") && !HasPrefix(s, "&#39;") && !HasPrefix(s, "&#43;");
      assert !HasPrefix(s, "&lt;");
    }
  }

  /** Escaping loses nothing but NUL: the entities read back to the value. */
  lemma {:induction false} UnescapeEscape(s: string)
    requires forall i :: 0 <= i < |s| ==> s[i] != '\0'
    ensures Unescape(HtmlEscape(s)) == s
  {
    if s != [] {
      assert forall i :: 0 <= i < |s[1..]| ==> s[1..][i] == s[i + 1];
      UnescapeEscape(s[1..]);
      UnescapeOne(s[0], HtmlEscape(s[1..]));
      assert [s[0]] + s[1..] == s;
    }
  }

  // ---------------------------------------------------------------------------
  // parse

  /** What `parse` returns: the bytes (`None` for a nil slice) and the error. */
  function Render(templateName: string, templateMap: map<string, string>, data: map<string, string>): (r: (Option<string>, Option<string>))
    ensures templateName !in templateMap ==> r == (Some(""), Some(NotFound(templateName)))
    ensures templateName in templateMap ==> r == Templates.Outcome(templateName, templateMap[templateName], data, HtmlEscape)
  {
    if templateName !in templateMap then (Some(""), Some(NotFound(templateName)))
    else Templates.Outcome(templateName, templateMap[templateName], data, HtmlEscape)
  }

  /** `parse`: look the template up, compile it, execute it into a buffer. */
  method Parse(templateName: string, templateMap: map<string, string>, data: map<string, string>)
    returns (bytes: Option<string>, err: Option<string>)
    ensures (bytes, err) == Render(templateName, templateMap, data)
  {
    var slackTemplates, ok := if templateName in templateMap then templateMap[templateName] else "", templateName in templateMap;
    if !ok {
      return Some(""), Some(NotFound(templateName));
    }
    bytes, err := Templates.Run(templateName, slackTemplates, data, HtmlEscape);
  }

  /** Rendering succeeds exactly when the template is registered, compiles,
      and every key it references is in the data; it never fills a blank. */
  lemma RenderStrict(templateName: string, templateMap: map<string, string>, data: map<string, string>)
    ensures Render(templateName, templateMap, data).1.None? <==>
              templateName in templateMap && Templates.Compile(templateMap[templateName]).Success? &&
              forall i :: 0 <= i < |Templates.Compile(templateMap[templateName]).value| ==>
                var seg := Templates.Compile(templateMap[templateName]).value[i];
                !(seg.Field? && seg.key !in data)
  {
  }

  /** When no value holds a special character, the output is the one of plain
      substitution: escaping shows only on values that need it. */
  lemma RenderPlainValues(templateName: string, templateMap: map<string, string>, data: map<string, string>)
    requires templateName in templateMap
    requires forall k :: k in data ==> forall i :: 0 <= i < |data[k]| ==> !Special(data[k][i])
    ensures Render(templateName, templateMap, data) == Templates.Outcome(templateName, templateMap[templateName], data, s => s)
  {
    var src := templateMap[templateName];
    forall k | k in data ensures HtmlEscape(data[k]) == (s => s)(data[k]) {
      EscapePlain(data[k]);
    }
    if Templates.Compile(src).Success? {
      Templates.ExecuteSameEscape(Templates.Compile(src).value, data, HtmlEscape, s => s);
    }
  }

  // ---------------------------------------------------------------------------
  // withTemplates

  function LoaderFor(dirPath: string, fileSuffix: string, read: string -> Result<string, string>): Registry.Loader
  {
    Registry.Loader(Registry.TrimmedName, dirPath, fileSuffix, read)
  }

  /** `withTemplates` as written: every directory entry whose name has the
      suffix is read at its joined path and filed under
      `strings.TrimRight(name, suffix)`; the first failing read ends the walk
      with what was loaded so far. */
  method WithTemplates(files: seq<string>, dirPath: string, fileSuffix: string, read: string -> Result<string, string>)
    returns (rootTemplates: map<string, string>, err: Option<string>)
    ensures Registry.Loaded(rootTemplates, err) == Registry.Load(LoaderFor(dirPath, fileSuffix, read), files)
  {
    rootTemplates := map[];
    ghost var l := LoaderFor(dirPath, fileSuffix, read);
    for i := 0 to |files|
      invariant Registry.Load(l, files) == Registry.LoadFrom(l, rootTemplates, files[i..])
    {
      assert files[i..][1..] == files[i + 1..];
      var fileLocation := Paths.Join(dirPath, files[i]);
      if Strs.HasSuffix(files[i], fileSuffix) {
        var data := read(fileLocation);
        if data.Failure? {
          return rootTemplates, Some(data.error);
        }
        var stripedFileName := Strs.TrimRight(files[i], fileSuffix);
        rootTemplates := rootTemplates[stripedFileName := data.value];
      }
    }
    return rootTemplates, None;
  }

  /** TrimRight treats the suffix as a set of characters: "html.tmpl" is filed
      under "h", not "html". */
  lemma TrimRightEatsName()
    ensures Strs.TrimRight("html.tmpl", ".tmpl") == "h"
  {
    Strs.TrimRightDropsCutsetTail("h", "tml.tmpl", ".tmpl");
    assert "h" + "tml.tmpl" == "html.tmpl";
    assert 'h' !in ".tmpl";
  }

  lemma EmailKeys()
    ensures Strs.TrimRight("email.tmpl", ".tmpl") == "emai"
    ensures Strs.TrimRight("emai.tmpl", ".tmpl") == "emai"
  {
    assert 'i' !in ".tmpl";
    Strs.TrimRightDropsCutsetTail("emai", "l.tmpl", ".tmpl");
    assert "emai" + "l.tmpl" == "email.tmpl";
    Strs.TrimRightDropsCutsetTail("emai", ".tmpl", ".tmpl");
    assert "emai" + ".tmpl" == "emai.tmpl";
  }

  /** Two templates collide: "email.tmpl" and "emai.tmpl" are both filed under
      "emai", so the first one read is lost. */
  lemma TrimRightKeysCollide(dirPath: string, read: string -> Result<string, string>)
    requires read(Paths.Join(dirPath, "email.tmpl")).Success?
    requires read(Paths.Join(dirPath, "emai.tmpl")).Success?
    ensures Registry.Load(LoaderFor(dirPath, ".tmpl", read), ["email.tmpl", "emai.tmpl"]) ==
              Registry.Loaded(map["emai" := read(Paths.Join(dirPath, "emai.tmpl")).value], None)
  {
    var l, a, b := LoaderFor(dirPath, ".tmpl", read), "email.tmpl", "emai.tmpl";
    EmailKeys();
    assert Registry.PathOf(l, a) == Paths.Join(dirPath, a);
    assert Registry.PathOf(l, b) == Paths.Join(dirPath, b);
    assert Strs.HasSuffix(a, ".tmpl");
    assert Strs.HasSuffix(b, ".tmpl");
    assert Registry.Inserts(l, a);
    assert Registry.Inserts(l, b);
    assert Registry.KeyOf(l, a) == Registry.KeyOf(l, b);
    Registry.LoadSameKey(l, a, b);
  }

  /** `withTemplates` as evidently intended: the suffix cut off once, with
      `strings.TrimSuffix`. */
  function FixedLoaderFor(dirPath: string, fileSuffix: string, read: string -> Result<string, string>): Registry.Loader
  {
    Registry.Loader(Registry.StrippedName, dirPath, fileSuffix, read)
  }

  method WithTemplatesFixed(files: seq<string>, dirPath: string, fileSuffix: string, read: string -> Result<string, string>)
    returns (rootTemplates: map<string, string>, err: Option<string>)
    ensures Registry.Loaded(rootTemplates, err) == Registry.Load(FixedLoaderFor(dirPath, fileSuffix, read), files)
  {
    rootTemplates := map[];
    ghost var l := FixedLoaderFor(dirPath, fileSuffix, read);
    for i := 0 to |files|
      invariant Registry.Load(l, files) == Registry.LoadFrom(l, rootTemplates, files[i..])
    {
      assert files[i..][1..] == files[i + 1..];
      var fileLocation := Paths.Join(dirPath, files[i]);
      if Strs.HasSuffix(files[i], fileSuffix) {
        var data := read(fileLocation);
        if data.Failure? {
          return rootTemplates, Some(data.error);
        }
        rootTemplates := rootTemplates[Strs.TrimSuffix(files[i], fileSuffix) := data.value];
      }
    }
    return rootTemplates, None;
  }

  /** With the fix and no failing read, every suffixed file is filed under its
      name minus the suffix, with its own contents, and every key is such a
      name. */
  lemma FixedLoadsEveryTemplate(dirPath: string, fileSuffix: string, files: seq<string>, read: string -> Result<string, string>)
    requires forall i :: 0 <= i < |files| && Strs.HasSuffix(files[i], fileSuffix) ==>
               read(Paths.Join(dirPath, files[i])).Success?
    ensures Registry.Load(FixedLoaderFor(dirPath, fileSuffix, read), files).err == None
    ensures forall k :: k in Registry.Load(FixedLoaderFor(dirPath, fileSuffix, read), files).templates <==>
              exists i :: 0 <= i < |files| && Strs.HasSuffix(files[i], fileSuffix) && k + fileSuffix == files[i]
    ensures forall i :: 0 <= i < |files| && Strs.HasSuffix(files[i], fileSuffix) ==>
              Registry.Load(FixedLoaderFor(dirPath, fileSuffix, read), files).templates[Strs.TrimSuffix(files[i], fileSuffix)] ==
              read(Paths.Join(dirPath, files[i])).value
  {
    var l := FixedLoaderFor(dirPath, fileSuffix, read);
    Registry.LoadFromShape(l, map[], files);
    var m := Registry.Inserted(l, map[], files);
    forall k ensures k in m <==> exists i :: 0 <= i < |files| && Strs.HasSuffix(files[i], fileSuffix) && k + fileSuffix == files[i] {
      Registry.InsertedKeys(l, map[], files, k);
      if exists i :: 0 <= i < |files| && Strs.HasSuffix(files[i], fileSuffix) && k + fileSuffix == files[i] {
        var i :| 0 <= i < |files| && Strs.HasSuffix(files[i], fileSuffix) && k + fileSuffix == files[i];
        Strs.TrimSuffixRoundTrip(k, fileSuffix);
      }
    }
    Registry.StrippedNameDistinct(l, files);
    forall i | 0 <= i < |files| && Strs.HasSuffix(files[i], fileSuffix)
      ensures m[Strs.TrimSuffix(files[i], fileSuffix)] == read(Paths.Join(dirPath, files[i])).value
    {
      Registry.InsertedValue(l, map[], files, i);
    }
  }

  /** With the fix, "html.tmpl" is filed under "html". */
  lemma TrimSuffixKeepsName()
    ensures Strs.TrimSuffix("html.tmpl", ".tmpl") == "html"
  {
    Strs.TrimSuffixRoundTrip("html", ".tmpl");
    assert "html" + ".tmpl" == "html.tmpl";
  }
}
