/** The template language both revisions of `parse` compile and execute, cut
    down to what the library's templates use: literal text and field references
    `{{ .key }}` into a string-keyed data map, executed with `missingkey=error`.
    Module TextTemplates (aeolic.go) and module HtmlTemplates (parse.go) build
    their `parse` on it. */
module Templates {

  import opened Wrappers

  datatype Segment = Text(text: string) | Field(key: string)

  // ---------------------------------------------------------------------------
  // finding the delimiters

  /** No `a` is directly followed by `b` in `s`. */
  ghost predicate NoPair(s: string, a: char, b: char)
  {
    forall i, j :: 0 <= i < j < |s| && j == i + 1 ==> !(s[i] == a && s[j] == b)
  }

  /** The first index where `a` is directly followed by `b`. */
  function FindPair(s: string, a: char, b: char): (r: Option<nat>)
    ensures r.Some? ==> r.value + 1 < |s| && s[r.value] == a && s[r.value + 1] == b
    ensures r.Some? ==> NoPair(s[..r.value + 1], a, b)
    ensures r.None? <==> NoPair(s, a, b)
  {
    if |s| < 2 then None
    else if s[0] == a && s[1] == b then Some(0)
    else match FindPair(s[1..], a, b)
      case None => None
      case Some(i) =>
        assert s[..i + 2] == [s[0]] + s[1..][..i + 1];
        Some(i + 1)
  }

  /** FindPair stops at the first delimiter after a stretch that holds none
      and does not end in `a`. */
  lemma FindPairAfter(t: string, u: string, a: char, b: char)
    requires NoPair(t, a, b) && (t == [] || t[|t| - 1] != a)
    requires |u| >= 2 && u[0] == a && u[1] == b
    ensures FindPair(t + u, a, b) == Some(|t|)
  {
    var s := t + u;
    assert s[|t|] == a && s[|t| + 1] == b;
  }

  // ---------------------------------------------------------------------------
  // compiling

  predicate IsSpace(c: char)
  {
    c == ' ' || c == '\t' || c == '\r' || c == '\n'
  }

  function TrimLeftSpace(s: string): (r: string)
    ensures |r| <= |s| && r == s[|s| - |r|..]
    ensures |r| > 0 ==> !IsSpace(r[0])
  {
    if s != [] && IsSpace(s[0]) then TrimLeftSpace(s[1..]) else s
  }

  function TrimRightSpace(s: string): (r: string)
    ensures |r| <= |s| && r == s[..|r|]
    ensures |r| > 0 ==> !IsSpace(r[|r| - 1])
  {
    if s != [] && IsSpace(s[|s| - 1]) then TrimRightSpace(s[..|s| - 1]) else s
  }

  predicate IsLetter(c: char)
  {
    c == '_' || 'a' <= c <= 'z' || 'A' <= c <= 'Z'
  }

  /** A field name: a letter or '_', then letters, digits and '_'. */
  predicate IsIdentifier(s: string)
  {
    |s| > 0 && IsLetter(s[0]) && forall i :: 0 < i < |s| ==> IsLetter(s[i]) || '0' <= s[i] <= '9'
  }

  /** The key of an action `{{ .key }}`, given the text between the braces. */
  function FieldOf(action: string): (r: Option<string>)
    ensures r.Some? ==> IsIdentifier(r.value)
  {
    var t := TrimRightSpace(TrimLeftSpace(action));
    if |t| > 1 && t[0] == '.' && IsIdentifier(t[1..]) then Some(t[1..]) else None
  }

  datatype CompileError = UnclosedAction | UnsupportedAction(action: string)

  /** The text of a compile error, for the template `name`. */
  function CompileErrorText(name: string, e: CompileError): string
  {
    match e
    case UnclosedAction => "template: " + name + ": unclosed action"
    case UnsupportedAction(a) => "template: " + name + ": unsupported action \"" + a + "\""
  }

  /** Where the first action of a source is: nowhere, opened but never
      closed, or between `before` and `after`. */
  datatype Split = NoAction | Unclosed | Action(before: string, action: string, after: string)

  function SplitAtAction(src: string): (r: Split)
    ensures r.NoAction? <==> NoPair(src, '{', '{')
    ensures r.Action? ==> |r.after| < |src|
  {
    match FindPair(src, '{', '{')
    case None => NoAction
    case Some(i) =>
      match FindPair(src[i + 2..], '}', '}')
      case None => Unclosed
      case Some(j) => Action(src[..i], src[i + 2..][..j], src[i + 2..][j + 2..])
  }

  /** Template source to segments: text up to each `{{`, then the action up to
      the next `}}`, which must be a single field reference. */
  function Compile(src: string): Result<seq<Segment>, CompileError>
    decreases |src|
  {
    match SplitAtAction(src)
    case NoAction => Success(if src == [] then [] else [Text(src)])
    case Unclosed => Failure(UnclosedAction)
    case Action(before, action, after) =>
      match FieldOf(action)
      case None => Failure(UnsupportedAction(action))
      case Some(key) =>
        match Compile(after)
        case Failure(e) => Failure(e)
        case Success(tail) => Success((if before == [] then [] else [Text(before)]) + [Field(key)] + tail)
  }

  /** Segments back to source, each field written `{{ .key }}`. */
  function Print(segs: seq<Segment>): string
  {
    if segs == [] then ""
    else match segs[0]
      case Text(t) => t + Print(segs[1..])
      case Field(k) => "{{ ." + k + " }}" + Print(segs[1..])
  }

  /** The segments Compile can return: non-empty texts holding no `{{` and not
      ending in `{`, never two texts in a row, and identifier keys. */
  ghost predicate WellFormed(segs: seq<Segment>)
  {
    && (forall i :: 0 <= i < |segs| && segs[i].Text? ==>
          segs[i].text != [] && NoPair(segs[i].text, '{', '{') && segs[i].text[|segs[i].text| - 1] != '{')
    && (forall i :: 0 <= i < |segs| && segs[i].Field? ==> IsIdentifier(segs[i].key))
    && (forall i :: 0 <= i < |segs| - 1 ==> !(segs[i].Text? && segs[i + 1].Text?))
  }

  lemma WellFormedTail(segs: seq<Segment>)
    requires WellFormed(segs) && segs != []
    ensures WellFormed(segs[1..])
  {
    assert forall i :: 0 <= i < |segs| - 1 ==> segs[1..][i] == segs[i + 1];
  }

  lemma FieldOfPrinted(k: string)
    requires IsIdentifier(k)
    ensures FieldOf(" ." + k + " ") == Some(k)
  {
    var b := "." + k;
    var a := " ." + k + " ";
    assert a == " " + (b + " ");
    TrimLeftPrinted(b);
    TrimRightPrinted(k);
    assert b[0] == '.' && b[1..] == k;
    FieldOfTrimmed(a, b);
  }

  lemma FieldOfTrimmed(action: string, t: string)
    requires TrimRightSpace(TrimLeftSpace(action)) == t
    requires |t| > 1 && t[0] == '.' && IsIdentifier(t[1..])
    ensures FieldOf(action) == Some(t[1..])
  {
  }

  lemma TrimLeftPrinted(b: string)
    requires b != [] && b[0] == '.'
    ensures TrimLeftSpace(" " + (b + " ")) == b + " "
  {
    var c := b + " ";
    var a := " " + c;
    assert a[0] == ' ' && a[1..] == c;
    assert c[0] == '.';
  }

  lemma TrimRightPrinted(k: string)
    requires IsIdentifier(k)
    ensures TrimRightSpace("." + k + " ") == "." + k
  {
    var b := "." + k;
    var c := b + " ";
    assert c[|c| - 1] == ' ' && c[..|c| - 1] == b;
    assert b[|b| - 1] == k[|k| - 1];
    assert !IsSpace(b[|b| - 1]);
  }

  lemma {:induction false} PrintedAction(k: string, tail: string)
    requires IsIdentifier(k)
    ensures FindPair(" ." + k + " }}" + tail, '}', '}') == Some(|k| + 3)
  {
    var t := " ." + k + " ";
    assert NoPair(t, '}', '}') by {
      forall j | 0 <= j < |t| ensures t[j] != '}' {
        if 2 <= j < |k| + 2 { assert t[j] == k[j - 2]; }
      }
    }
    assert " ." + k + " }}" + tail == t + ("}}" + tail);
    FindPairAfter(t, "}}" + tail, '}', '}');
  }

  /** SplitAtAction, given where its two delimiters are. */
  lemma SplitAt(src: string, i: nat, j: nat)
    requires FindPair(src, '{', '{') == Some(i)
    requires FindPair(src[i + 2..], '}', '}') == Some(j)
    ensures SplitAtAction(src) == Action(src[..i], src[i + 2..][..j], src[i + 2..][j + 2..])
  {
    var rest := src[i + 2..];
    assert FindPair(rest, '}', '}') == Some(j);
    assert j + 2 <= |rest|;
  }

  /** A source built from text, `{{`, an action without `}}`, `}}` and a tail
      splits back into those parts. */
  lemma SplitBuilt(t: string, a: string, tail: string)
    requires NoPair(t, '{', '{') && (t == [] || t[|t| - 1] != '{')
    requires FindPair(a + ("}}" + tail), '}', '}') == Some(|a|)
    ensures SplitAtAction(t + ("{{" + (a + ("}}" + tail)))) == Action(t, a, tail)
  {
    var rest := a + ("}}" + tail);
    var src := t + ("{{" + rest);
    OpenAfter(t, rest);
    DropTake(t, "{{", rest);
    DropTake(a, "}}", tail);
    SplitParts(src, rest, t, a, tail);
  }

  lemma OpenAfter(t: string, rest: string)
    requires NoPair(t, '{', '{') && (t == [] || t[|t| - 1] != '{')
    ensures FindPair(t + ("{{" + rest), '{', '{') == Some(|t|)
  {
    FindPairAfter(t, "{{" + rest, '{', '{');
  }

  lemma SplitParts(src: string, rest: string, t: string, a: string, tail: string)
    requires |src| >= |t| + 2 && src[..|t|] == t && src[|t| + 2..] == rest
    requires |rest| >= |a| + 2 && rest[..|a|] == a && rest[|a| + 2..] == tail
    requires FindPair(src, '{', '{') == Some(|t|)
    requires FindPair(rest, '}', '}') == Some(|a|)
    ensures SplitAtAction(src) == Action(t, a, tail)
  {
  }

  lemma DropTake(x: string, d: string, y: string)
    requires |d| == 2
    ensures (x + (d + y))[..|x|] == x && (x + (d + y))[|x| + 2..] == y
  {
  }

  /** The first action of printed text is the printed field. */
  lemma SplitPrinted(t: string, k: string, tail: string)
    requires NoPair(t, '{', '{') && (t == [] || t[|t| - 1] != '{')
    requires IsIdentifier(k)
    ensures SplitAtAction(t + ("{{ ." + k + " }}" + tail)) == Action(t, " ." + k + " ", tail)
  {
    var a := " ." + k + " ";
    PrintedAction(k, tail);
    assert " ." + k + " }}" + tail == a + ("}}" + tail);
    assert "{{ ." + k + " }}" + tail == "{{" + (a + ("}}" + tail));
    SplitBuilt(t, a, tail);
  }

  /** One action after a stretch of text: Compile takes the text, then the
      field, then goes on with what follows. */
  lemma CompileStep(t: string, k: string, tail: string)
    requires NoPair(t, '{', '{') && (t == [] || t[|t| - 1] != '{')
    requires IsIdentifier(k)
    ensures Compile(t + ("{{ ." + k + " }}" + tail)) ==
              match Compile(tail)
              case Failure(e) => Failure(e)
              case Success(ss) => Success((if t == [] then [] else [Text(t)]) + [Field(k)] + ss)
  {
    SplitPrinted(t, k, tail);
    FieldOfPrinted(k);
  }

  lemma PrintCons(seg: Segment, tail: seq<Segment>)
    ensures Print([seg] + tail) == (match seg case Text(t) => t case Field(k) => "{{ ." + k + " }}") + Print(tail)
  {
    assert ([seg] + tail)[1..] == tail;
  }

  /** What WellFormed says about the first segment and the one after it. */
  lemma WellFormedHead(segs: seq<Segment>)
    requires WellFormed(segs) && segs != []
    ensures segs[0].Text? ==> segs[0].text != [] && NoPair(segs[0].text, '{', '{') && segs[0].text[|segs[0].text| - 1] != '{'
    ensures segs[0].Text? && |segs| > 1 ==> segs[1].Field? && IsIdentifier(segs[1].key)
    ensures segs[0].Field? ==> IsIdentifier(segs[0].key)
  {
    if segs[0].Text? && |segs| > 1 {
      assert !(segs[0].Text? && segs[1].Text?);
    }
  }

  /** Compiling printed text, one field and a tail that compiles back. */
  lemma CompilePrintStep(t: string, k: string, tail: seq<Segment>)
    requires NoPair(t, '{', '{') && (t == [] || t[|t| - 1] != '{')
    requires IsIdentifier(k)
    requires Compile(Print(tail)) == Success(tail)
    ensures Compile(t + Print([Field(k)] + tail)) == Success((if t == [] then [] else [Text(t)]) + [Field(k)] + tail)
  {
    var p := Print(tail);
    PrintCons(Field(k), tail);
    CompileStep(t, k, p);
  }

  lemma CompilePrintText(t: string)
    requires t != [] && NoPair(t, '{', '{')
    ensures Compile(Print([Text(t)])) == Success([Text(t)])
  {
    PrintCons(Text(t), []);
    assert Print([Text(t)]) == t + "";
    assert t + "" == t;
  }

  lemma CompilePrintTextField(segs: seq<Segment>)
    requires |segs| >= 2 && segs[0].Text? && segs[1].Field?
    requires NoPair(segs[0].text, '{', '{') && segs[0].text != [] && segs[0].text[|segs[0].text| - 1] != '{'
    requires IsIdentifier(segs[1].key)
    requires Compile(Print(segs[2..])) == Success(segs[2..])
    ensures Compile(Print(segs)) == Success(segs)
  {
    var t, k, tail := segs[0].text, segs[1].key, segs[2..];
    assert segs[1..] == [Field(k)] + tail;
    assert segs == [Text(t)] + segs[1..];
    PrintCons(Text(t), segs[1..]);
    CompilePrintStep(t, k, tail);
    var p := t + Print([Field(k)] + tail);
    assert Compile(p) == Success([Text(t)] + [Field(k)] + tail);
    assert [Text(t)] + [Field(k)] + tail == segs;
    assert p == Print(segs);
  }

  lemma CompilePrintField(segs: seq<Segment>)
    requires |segs| >= 1 && segs[0].Field? && IsIdentifier(segs[0].key)
    requires Compile(Print(segs[1..])) == Success(segs[1..])
    ensures Compile(Print(segs)) == Success(segs)
  {
    var k, tail := segs[0].key, segs[1..];
    assert segs == [Field(k)] + tail;
    CompilePrintStep("", k, tail);
    var p := "" + Print([Field(k)] + tail);
    assert Compile(p) == Success([] + [Field(k)] + tail);
    assert [] + [Field(k)] + tail == segs;
    assert p == Print(segs);
  }

  /** Compiling what Print wrote gives the segments back. */
  lemma {:induction false} CompilePrint(segs: seq<Segment>)
    requires WellFormed(segs)
    ensures Compile(Print(segs)) == Success(segs)
  {
    if segs == [] {
      assert NoPair("", '{', '{');
    } else {
      WellFormedHead(segs);
      WellFormedTail(segs);
      if segs[0].Text? && |segs| == 1 {
        assert segs == [Text(segs[0].text)];
        CompilePrintText(segs[0].text);
      } else if segs[0].Text? {
        WellFormedTail(segs[1..]);
        assert segs[1..][1..] == segs[2..];
        CompilePrint(segs[2..]);
        CompilePrintTextField(segs);
      } else {
        CompilePrint(segs[1..]);
        CompilePrintField(segs);
      }
    }
  }

  /** Source without `{{` compiles to itself as literal text. */
  lemma CompileLiteral(src: string)
    requires NoPair(src, '{', '{')
    ensures Compile(src) == Success(if src == [] then [] else [Text(src)])
  {
  }

  // ---------------------------------------------------------------------------
  // executing

  /** Executing with `missingkey=error`: text is copied, a field is replaced by
      its escaped value, and the first field missing from `data` stops the run,
      its key being the failure. */
  function Execute(segs: seq<Segment>, data: map<string, string>, escape: string -> string): Result<string, string>
  {
    if segs == [] then Success("")
    else if segs[0].Field? && segs[0].key !in data then Failure(segs[0].key)
    else
      var head := if segs[0].Text? then segs[0].text else escape(data[segs[0].key]);
      match Execute(segs[1..], data, escape)
      case Failure(k) => Failure(k)
      case Success(out) => Success(head + out)
  }

  /** The position of the first field whose key is missing from `data`. */
  function FirstMissing(segs: seq<Segment>, data: map<string, string>): (r: Option<nat>)
    ensures r.Some? ==> r.value < |segs| && segs[r.value].Field? && segs[r.value].key !in data
    ensures r.Some? ==> forall i :: 0 <= i < r.value ==> !(segs[i].Field? && segs[i].key !in data)
    ensures r.None? <==> forall i :: 0 <= i < |segs| ==> !(segs[i].Field? && segs[i].key !in data)
  {
    if segs == [] then None
    else if segs[0].Field? && segs[0].key !in data then Some(0)
    else match FirstMissing(segs[1..], data)
      case None => None
      case Some(i) => Some(i + 1)
  }

  /** Execution is strict: it fails exactly when some referenced key is missing,
      and then names the first missing key; it never substitutes a blank. */
  lemma {:induction false} ExecuteStrict(segs: seq<Segment>, data: map<string, string>, escape: string -> string)
    ensures Execute(segs, data, escape).Failure? <==> FirstMissing(segs, data).Some?
    ensures Execute(segs, data, escape).Failure? ==>
              Execute(segs, data, escape).error == segs[FirstMissing(segs, data).value].key
  {
    if segs != [] && !(segs[0].Field? && segs[0].key !in data) {
      ExecuteStrict(segs[1..], data, escape);
    }
  }

  /** Output of a successful run: each text copied and each field's escaped
      value, in order. */
  lemma {:induction false} ExecuteConcat(a: seq<Segment>, b: seq<Segment>, data: map<string, string>, escape: string -> string)
    requires Execute(a, data, escape).Success? && Execute(b, data, escape).Success?
    ensures Execute(a + b, data, escape) == Success(Execute(a, data, escape).value + Execute(b, data, escape).value)
  {
    if a != [] {
      assert (a + b)[1..] == a[1..] + b;
      assert (a + b)[0] == a[0];
      assert Execute(a[1..], data, escape).Success?;
      ExecuteConcat(a[1..], b, data, escape);
      var head := if a[0].Text? then a[0].text else escape(data[a[0].key]);
      var x, y := Execute(a[1..], data, escape).value, Execute(b, data, escape).value;
      assert Execute(a, data, escape) == Success(head + x);
      assert Execute(a + b, data, escape) == Success(head + (x + y));
      assert head + (x + y) == (head + x) + y;
    } else {
      assert a + b == b;
      assert "" + Execute(b, data, escape).value == Execute(b, data, escape).value;
    }
  }

  /** A run that gets through `a` and meets a missing field first thing in `b`
      fails on that field. */
  lemma {:induction false} ExecuteStopsAfter(a: seq<Segment>, b: seq<Segment>, data: map<string, string>, escape: string -> string)
    requires Execute(a, data, escape).Success?
    requires b != [] && b[0].Field? && b[0].key !in data
    ensures Execute(a + b, data, escape) == Failure(b[0].key)
  {
    if a == [] {
      assert a + b == b;
    } else {
      assert (a + b)[1..] == a[1..] + b;
      assert (a + b)[0] == a[0];
      ExecuteStopsAfter(a[1..], b, data, escape);
    }
  }

  /** Executing into a buffer, one segment at a time: the buffer holds the
      output so far, and the first missing key abandons it. */
  method ExecuteInto(segs: seq<Segment>, data: map<string, string>, escape: string -> string)
    returns (r: Result<string, string>)
    ensures r == Execute(segs, data, escape)
  {
    var buf := "";
    var i := 0;
    while i < |segs|
      invariant 0 <= i <= |segs|
      invariant Execute(segs[..i], data, escape) == Success(buf)
    {
      var seg := segs[i];
      assert segs == segs[..i] + segs[i..];
      if seg.Field? && seg.key !in data {
        ExecuteStopsAfter(segs[..i], segs[i..], data, escape);
        return Failure(seg.key);
      }
      var piece := if seg.Text? then seg.text else escape(data[seg.key]);
      assert Execute([seg], data, escape) == Success(piece + "");
      assert piece + "" == piece;
      ExecuteConcat(segs[..i], [seg], data, escape);
      assert segs[..i + 1] == segs[..i] + [seg];
      buf := buf + piece;
      i := i + 1;
    }
    assert segs[..i] == segs;
    return Success(buf);
  }

  /** Two escapers that agree on every value of the data give the same run. */
  lemma {:induction false} ExecuteSameEscape(segs: seq<Segment>, data: map<string, string>, e1: string -> string, e2: string -> string)
    requires forall k :: k in data ==> e1(data[k]) == e2(data[k])
    ensures Execute(segs, data, e1) == Execute(segs, data, e2)
  {
    if segs != [] {
      ExecuteSameEscape(segs[1..], data, e1, e2);
    }
  }

  /** A template without `{{` renders to its own text, whatever the data. */
  lemma LiteralRendersItself(src: string, data: map<string, string>, escape: string -> string)
    requires NoPair(src, '{', '{')
    ensures Compile(src).Success? && Execute(Compile(src).value, data, escape) == Success(src)
  {
    CompileLiteral(src);
    if src != [] {
      assert [Text(src)][1..] == [];
      assert Execute([], data, escape) == Success("");
      assert src + "" == src;
    }
  }

  /** The text of the execution error for a missing key (positions left out). */
  function MissingKeyText(name: string, key: string): string
  {
    "template: " + name + ": executing \"" + name + "\" at <." + key + ">: map has no entry for key \"" + key + "\""
  }

  /** How both revisions report an execution failure: the error, " \n ", then
      the template source verbatim. */
  function ExecFailureText(name: string, key: string, src: string): (r: string)
    ensures exists pre, post :: r == pre + "no entry for key \"" + key + "\" " + post
    ensures |r| >= |src| + 3 && r[|r| - |src|..] == src
    ensures r[|r| - |src| - 3..|r| - |src|] == " \n "
  {
    var m := MissingKeyText(name, key);
    NamesKey(name, key);
    AppendSource(m, src);
    assert m + " \n " + src == KeyPrefix(name, key) + "no entry for key \"" + key + "\" " + ("\n " + src);
    m + " \n " + src
  }

  /** What MissingKeyText puts in front of the missing key's description. */
  function KeyPrefix(name: string, key: string): string
  {
    "template: " + name + ": executing \"" + name + "\" at <." + key + ">: map has "
  }

  lemma NamesKey(name: string, key: string)
    ensures MissingKeyText(name, key) + " " == KeyPrefix(name, key) + "no entry for key \"" + key + "\" "
  {
  }

  lemma AppendSource(m: string, src: string)
    ensures m + " \n " + src == (m + " ") + ("\n " + src)
    ensures var r := m + " \n " + src; |r| >= |src| + 3 && r[|r| - |src|..] == src
    ensures var r := m + " \n " + src; r[|r| - |src| - 3..|r| - |src|] == " \n "
  {
    var r := m + " \n " + src;
    assert r[|m|..] == " \n " + src;
  }

  /** What `buf.Bytes()` returns once `out` was written into a fresh
      `bytes.Buffer`: a buffer that was never written to gives the nil slice. */
  function BufferBytes(out: string): (r: Option<string>)
    ensures r.None? <==> out == ""
    ensures r.GetOr("") == out
  {
    if out == "" then None else Some(out)
  }

  /** Compiling and executing a template source found under `name`: a compile
      error gives empty bytes; an execution error gives no bytes (Go's nil
      slice) and the error text with the source appended; otherwise the buffer's
      bytes, nil when the output is empty, and no error. Bytes are a string;
      `None` is the nil slice. */
  function Outcome(name: string, src: string, data: map<string, string>, escape: string -> string): (r: (Option<string>, Option<string>))
    ensures Compile(src).Failure? ==> r == (Some(""), Some(CompileErrorText(name, Compile(src).error)))
    ensures r.1.None? <==> Compile(src).Success? && FirstMissing(Compile(src).value, data).None?
    ensures Compile(src).Success? && FirstMissing(Compile(src).value, data).Some? ==>
              r.0.None? &&
              r.1 == Some(ExecFailureText(name, Compile(src).value[FirstMissing(Compile(src).value, data).value].key, src))
    ensures r.1.None? ==> Execute(Compile(src).value, data, escape) == Success(r.0.GetOr(""))
    ensures r.1.None? ==> (r.0.None? <==> r.0.GetOr("") == "")
    ensures r.0.None? <==>
              Compile(src).Success? &&
              (FirstMissing(Compile(src).value, data).Some? || Execute(Compile(src).value, data, escape) == Success(""))
  {
    match Compile(src)
    case Failure(e) => (Some(""), Some(CompileErrorText(name, e)))
    case Success(segs) =>
      ExecuteStrict(segs, data, escape);
      match Execute(segs, data, escape)
      case Failure(k) => (None, Some(ExecFailureText(name, k, src)))
      case Success(out) => (BufferBytes(out), None)
  }

  /** An empty rendering comes back as the nil slice, not as empty bytes. */
  lemma EmptySourceIsNil(name: string, data: map<string, string>, escape: string -> string)
    ensures Outcome(name, "", data, escape) == (None, None)
  {
    CompileLiteral("");
  }

  /** The same, the way `parse` does it: execute into a buffer, then decide. */
  method Run(name: string, src: string, data: map<string, string>, escape: string -> string)
    returns (bytes: Option<string>, err: Option<string>)
    ensures (bytes, err) == Outcome(name, src, data, escape)
  {
    var compiled := Compile(src);
    if compiled.Failure? {
      return Some(""), Some(CompileErrorText(name, compiled.error));
    }
    var run := ExecuteInto(compiled.value, data, escape);
    if run.Failure? {
      return None, Some(ExecFailureText(name, run.error, src));
    }
    return BufferBytes(run.value), None;
  }
}
