/** `path/filepath`'s `Clean` and two-argument `Join` on a Unix system ('/' the
    only separator, no volume names), computed on path components: split at
    '/', drop empty and "." components, let ".." cancel the component before it
    (at the root it is dropped, in a relative path with nothing to cancel it is
    kept), then join again. */
module Paths {

  // ---------------------------------------------------------------------------
  // components

  /** The pieces of `s` between '/' separators, empty pieces included. */
  function Split(s: string): (r: seq<string>)
    ensures |r| >= 1
    ensures forall i :: 0 <= i < |r| ==> '/' !in r[i]
  {
    if s == [] then [""]
    else if s[0] == '/' then [""] + Split(s[1..])
    else
      var r := Split(s[1..]);
      [[s[0]] + r[0]] + r[1..]
  }

  /** The pieces are joined again by '/'. */
  function JoinSlash(cs: seq<string>): (r: string)
    ensures |cs| == 1 ==> r == cs[0]
    ensures |cs| >= 2 ==> |r| >= |cs[0]| + 1
    ensures cs != [] && cs[0] != [] ==> r != [] && r[0] == cs[0][0]
  {
    if cs == [] then ""
    else if |cs| == 1 then cs[0]
    else cs[0] + "/" + JoinSlash(cs[1..])
  }

  lemma {:induction false} SplitAround(a: string, b: string)
    ensures Split(a + "/" + b) == Split(a) + Split(b)
  {
    var s := a + "/" + b;
    if a == [] {
      assert s == "/" + b;
      assert s[1..] == b;
    } else {
      assert s[0] == a[0];
      assert s[1..] == a[1..] + "/" + b;
      SplitAround(a[1..], b);
      var r, rb := Split(a[1..]), Split(b);
      assert Split(s[1..]) == r + rb;
      if a[0] == '/' {
        assert Split(s) == [""] + (r + rb);
        assert Split(a) == [""] + r;
      } else {
        assert Split(s) == [[s[0]] + (r + rb)[0]] + (r + rb)[1..];
        assert (r + rb)[0] == r[0];
        assert (r + rb)[1..] == r[1..] + rb;
        assert Split(a) == [[a[0]] + r[0]] + r[1..];
      }
    }
  }

  lemma {:induction false} SplitNoSlash(x: string)
    requires '/' !in x
    ensures Split(x) == [x]
  {
    if x != [] {
      assert '/' !in x[1..] by {
        forall i | 0 <= i < |x[1..]| ensures x[1..][i] != '/' {
          assert x[1..][i] == x[i + 1];
        }
      }
      SplitNoSlash(x[1..]);
      assert [x[0]] + x[1..] == x;
    }
  }

  /** Joining pieces that hold no '/' and splitting again gives them back. */
  lemma {:induction false} SplitJoinSlash(cs: seq<string>)
    requires cs != []
    requires forall i :: 0 <= i < |cs| ==> '/' !in cs[i]
    ensures Split(JoinSlash(cs)) == cs
  {
    if |cs| == 1 {
      SplitNoSlash(cs[0]);
    } else {
      SplitJoinSlash(cs[1..]);
      SplitAround(cs[0], JoinSlash(cs[1..]));
      SplitNoSlash(cs[0]);
      assert [cs[0]] + cs[1..] == cs;
    }
  }

  // ---------------------------------------------------------------------------
  // reducing the components

  /** One component applied to the components kept so far. */
  function Step(rooted: bool, stack: seq<string>, c: string): seq<string>
  {
    if c == "" || c == "." then stack
    else if c == ".." then
      if stack != [] && stack[|stack| - 1] != ".." then stack[..|stack| - 1]
      else if rooted then stack
      else stack + [".."]
    else stack + [c]
  }

  function Reduce(rooted: bool, stack: seq<string>, cs: seq<string>): seq<string>
    decreases |cs|
  {
    if cs == [] then stack else Reduce(rooted, Step(rooted, stack, cs[0]), cs[1..])
  }

  /** What a reduced path can hold: names without '/' that are neither empty
      nor ".", any ".." in front of all names, and no ".." under the root. */
  ghost predicate Normal(rooted: bool, stack: seq<string>)
  {
    && (forall i :: 0 <= i < |stack| ==> stack[i] != "" && stack[i] != "." && '/' !in stack[i])
    && (forall i, j :: 0 <= i < j < |stack| && stack[j] == ".." ==> stack[i] == "..")
    && (rooted ==> forall i :: 0 <= i < |stack| ==> stack[i] != "..")
  }

  lemma StepNormal(rooted: bool, stack: seq<string>, c: string)
    requires Normal(rooted, stack) && '/' !in c
    ensures Normal(rooted, Step(rooted, stack, c))
  {
    if c == ".." && stack != [] && stack[|stack| - 1] != ".." {
      var s := stack[..|stack| - 1];
      assert forall i :: 0 <= i < |s| ==> s[i] == stack[i];
    } else if c != "" && c != "." && c != ".." {
      var s := stack + [c];
      assert forall i :: 0 <= i < |stack| ==> s[i] == stack[i];
    }
  }

  lemma {:induction false} ReduceNormal(rooted: bool, stack: seq<string>, cs: seq<string>)
    requires Normal(rooted, stack)
    requires forall i :: 0 <= i < |cs| ==> '/' !in cs[i]
    ensures Normal(rooted, Reduce(rooted, stack, cs))
    decreases |cs|
  {
    if cs != [] {
      StepNormal(rooted, stack, cs[0]);
      assert forall i :: 0 <= i < |cs[1..]| ==> cs[1..][i] == cs[i + 1];
      ReduceNormal(rooted, Step(rooted, stack, cs[0]), cs[1..]);
    }
  }

  lemma {:induction false} ReduceAppend(rooted: bool, stack: seq<string>, cs: seq<string>, c: string)
    ensures Reduce(rooted, stack, cs + [c]) == Step(rooted, Reduce(rooted, stack, cs), c)
    decreases |cs|
  {
    if cs == [] {
      assert [] + [c] == [c];
      assert [c][1..] == [];
    } else {
      assert (cs + [c])[1..] == cs[1..] + [c];
      assert (cs + [c])[0] == cs[0];
      ReduceAppend(rooted, Step(rooted, stack, cs[0]), cs[1..], c);
    }
  }

  /** Components that are already reduced go through unchanged. */
  lemma {:induction false} ReduceNormalIdentity(rooted: bool, p: seq<string>, q: seq<string>)
    requires Normal(rooted, p + q)
    ensures Reduce(rooted, p, q) == p + q
    decreases |q|
  {
    if q == [] {
      assert p + q == p;
    } else {
      var pq := p + q;
      assert pq[|p|] == q[0];
      assert q[0] != "" && q[0] != ".";
      if q[0] == ".." {
        assert !rooted;
        if p != [] {
          assert pq[|p| - 1] == p[|p| - 1];
          assert p[|p| - 1] == "..";
        }
      }
      assert Step(rooted, p, q[0]) == p + [q[0]];
      assert p + [q[0]] + q[1..] == pq;
      ReduceNormalIdentity(rooted, p + [q[0]], q[1..]);
    }
  }

  lemma ReduceSkipsEmpty(rooted: bool, cs: seq<string>)
    ensures Reduce(rooted, [], [""] + cs) == Reduce(rooted, [], cs)
  {
    assert ([""] + cs)[1..] == cs;
  }

  // ---------------------------------------------------------------------------
  // Clean and Join

  predicate Rooted(s: string)
  {
    s != [] && s[0] == '/'
  }

  function Render(rooted: bool, stack: seq<string>): string
  {
    if rooted then "/" + JoinSlash(stack)
    else if stack == [] then "."
    else JoinSlash(stack)
  }

  /** `filepath.Clean`: the shortest path naming the same file by purely
      lexical processing; "." for a path that reduces to nothing. */
  function Clean(s: string): string
  {
    var rooted := Rooted(s);
    Render(rooted, Reduce(rooted, [], Split(s)))
  }

  /** `filepath.Join(dir, name)`: the non-empty elements joined by '/', then
      cleaned; "" when both are empty. */
  function Join(dir: string, name: string): string
  {
    if dir != "" then Clean(dir + "/" + name)
    else if name != "" then Clean(name)
    else ""
  }

  /** A file name as a directory listing returns it. */
  predicate PlainName(name: string)
  {
    name != "" && name != "." && name != ".." && '/' !in name
  }

  /** What `Join(dir, name)` puts in front of a plain file name. */
  function DirPrefix(dir: string): string
  {
    if dir == "" then ""
    else
      var c := Clean(dir);
      if c == "." then "" else if c == "/" then "/" else c + "/"
  }

  lemma CleanRooted(rooted: bool, stack: seq<string>)
    requires Normal(rooted, stack)
    ensures Rooted(Render(rooted, stack)) == rooted
  {
    if !rooted && stack != [] {
      assert stack[0] != [];
    }
  }

  /** Cleaning a clean path changes nothing. */
  lemma CleanIdempotent(s: string)
    ensures Clean(Clean(s)) == Clean(s)
  {
    var rooted := Rooted(s);
    var stack := Reduce(rooted, [], Split(s));
    ReduceNormal(rooted, [], Split(s));
    var c := Render(rooted, stack);
    CleanRooted(rooted, stack);
    if stack == [] {
      if rooted {
        assert c == "/" + "";
        assert Split(c) == [""] + Split("");
      } else {
        SplitNoSlash(".");
      }
    } else {
      SplitJoinSlash(stack);
      assert [] + stack == stack;
      ReduceNormalIdentity(rooted, [], stack);
      if rooted {
        assert c == "/" + JoinSlash(stack);
        assert c[1..] == JoinSlash(stack);
        assert Split(c) == [""] + stack;
        ReduceSkipsEmpty(rooted, stack);
      }
    }
  }

  lemma JoinSlashAppend(stack: seq<string>, name: string)
    ensures JoinSlash(stack + [name]) == if stack == [] then name else JoinSlash(stack) + "/" + name
  {
    if |stack| == 1 {
      assert (stack + [name])[1..] == [name];
    } else if |stack| > 1 {
      assert (stack + [name])[1..] == stack[1..] + [name];
      JoinSlashAppend(stack[1..], name);
    }
  }

  lemma RenderAppend(rooted: bool, stack: seq<string>, name: string)
    requires Normal(rooted, stack) && PlainName(name)
    ensures Render(rooted, stack + [name]) ==
              (var c := Render(rooted, stack); if c == "." then "" else if c == "/" then "/" else c + "/") + name
  {
    JoinSlashAppend(stack, name);
    if stack == [] {
      assert stack + [name] == [name];
    } else {
      assert stack[0] != [];
      var j := JoinSlash(stack);
      assert j != [] && j[0] == stack[0][0];
      assert JoinSlash(stack + [name]) == j + "/" + name;
      if rooted {
        assert Render(rooted, stack) == "/" + j;
        assert "/" + j != "." && "/" + j != "/";
        assert Render(rooted, stack + [name]) == "/" + j + "/" + name;
      } else {
        assert Render(rooted, stack) == j;
        assert j != "/";
      }
    }
  }

  /** Joining a directory and a plain file name puts the cleaned directory,
      then one '/', then the name unchanged. */
  lemma JoinPlain(dir: string, name: string)
    requires PlainName(name)
    ensures Join(dir, name) == DirPrefix(dir) + name
  {
    SplitNoSlash(name);
    if dir == "" {
      assert Reduce(false, [], [name]) == [name];
      assert "" + name == name;
    } else {
      var rooted := Rooted(dir);
      var s := dir + "/" + name;
      assert Rooted(s) == rooted;
      SplitAround(dir, name);
      ReduceAppend(rooted, [], Split(dir), name);
      ReduceNormal(rooted, [], Split(dir));
      RenderAppend(rooted, Reduce(rooted, [], Split(dir)), name);
    }
  }

  /** Different plain names in one directory get different paths. */
  lemma JoinInjective(dir: string, a: string, b: string)
    requires PlainName(a) && PlainName(b)
    requires Join(dir, a) == Join(dir, b)
    ensures a == b
  {
    JoinPlain(dir, a);
    JoinPlain(dir, b);
    var p := DirPrefix(dir);
    assert (p + a)[|p|..] == a;
    assert (p + b)[|p|..] == b;
  }

  /** What Join returns is already clean, so `Clean(Join(dir, name))` opens
      the very path Join named. */
  lemma CleanJoin(dir: string, name: string)
    requires dir != "" || name != ""
    ensures Clean(Join(dir, name)) == Join(dir, name)
  {
    if dir != "" {
      CleanIdempotent(dir + "/" + name);
    } else {
      CleanIdempotent(name);
    }
  }
}
