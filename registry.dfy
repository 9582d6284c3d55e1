/** What both revisions of `withTemplates` compute: walk the directory's
    entries in order, skip those whose name lacks the suffix, read the others
    and file each under a key derived from its name, stopping at the first read
    that fails with the map built so far. The revisions differ only in how they
    derive the key and which path they read. */
module Registry {

  import opened Wrappers
  import Strs
  import Paths

  /** How a revision names its templates.
      FullPath: the joined path, read through `filepath.Clean` (aeolic.go).
      TrimmedName: `strings.TrimRight(name, suffix)`, read at the joined path (parse.go).
      StrippedName: `strings.TrimSuffix(name, suffix)`, read at the joined path. */
  datatype KeyPolicy = FullPath | TrimmedName | StrippedName

  /** A loader: the key policy, the directory, the suffix, and the file system
      as the result of reading each path. */
  datatype Loader = Loader(policy: KeyPolicy, dirPath: string, suffix: string, read: string -> Result<string, string>)

  function KeyOf(l: Loader, name: string): string
  {
    match l.policy
    case FullPath => Paths.Join(l.dirPath, name)
    case TrimmedName => Strs.TrimRight(name, l.suffix)
    case StrippedName => Strs.TrimSuffix(name, l.suffix)
  }

  function PathOf(l: Loader, name: string): string
  {
    match l.policy
    case FullPath => Paths.Clean(Paths.Join(l.dirPath, name))
    case _ => Paths.Join(l.dirPath, name)
  }

  /** The loader's answer: the templates, and the read error that stopped it. */
  datatype Loaded = Loaded(templates: map<string, string>, err: Option<string>)

  /** The loop, from a map already holding `acc`, over the remaining names. */
  function LoadFrom(l: Loader, acc: map<string, string>, names: seq<string>): (r: Loaded)
    ensures acc.Keys <= r.templates.Keys
    decreases |names|
  {
    if names == [] then Loaded(acc, None)
    else if !Strs.HasSuffix(names[0], l.suffix) then LoadFrom(l, acc, names[1..])
    else match l.read(PathOf(l, names[0]))
      case Failure(e) => Loaded(acc, Some(e))
      case Success(data) => LoadFrom(l, acc[KeyOf(l, names[0]) := data], names[1..])
  }

  /** `withTemplates`' loop from an empty map: it fails exactly when some
      template cannot be read, and then with the error of the first one. */
  function Load(l: Loader, names: seq<string>): (r: Loaded)
    ensures r.err.None? <==> FirstFailure(l, names).None?
    ensures r.err.Some? ==> r.err == Some(l.read(PathOf(l, names[FirstFailure(l, names).value])).error)
  {
    LoadFromShape(l, map[], names);
    LoadFrom(l, map[], names)
  }

  // ---------------------------------------------------------------------------
  // an independent description of the result

  /** The entry is a template and reading it succeeds. */
  predicate Inserts(l: Loader, name: string)
  {
    Strs.HasSuffix(name, l.suffix) && l.read(PathOf(l, name)).Success?
  }

  /** The entry is a template and reading it fails. */
  predicate Fails(l: Loader, name: string)
  {
    Strs.HasSuffix(name, l.suffix) && l.read(PathOf(l, name)).Failure?
  }

  /** Where the first failing read is. */
  function FirstFailure(l: Loader, names: seq<string>): (r: Option<nat>)
    ensures r.Some? ==> r.value < |names| && Fails(l, names[r.value])
    ensures r.Some? ==> forall i :: 0 <= i < r.value ==> !Fails(l, names[i])
    ensures r.None? <==> forall i :: 0 <= i < |names| ==> !Fails(l, names[i])
  {
    if names == [] then None
    else if Fails(l, names[0]) then Some(0)
    else
      var rest := names[1..];
      assert forall k :: 0 <= k < |rest| ==> rest[k] == names[k + 1];
      match FirstFailure(l, rest)
      case None => None
      case Some(i) => Some(i + 1)
  }

  /** `acc` with every readable template of `names` inserted in order,
      failures ignored. */
  function Inserted(l: Loader, acc: map<string, string>, names: seq<string>): map<string, string>
    decreases |names|
  {
    if names == [] then acc
    else if Inserts(l, names[0]) then
      Inserted(l, acc[KeyOf(l, names[0]) := l.read(PathOf(l, names[0])).value], names[1..])
    else Inserted(l, acc, names[1..])
  }

  /** The loader stops at the first failing read, returning that error and
      exactly the templates of the entries before it; with no failure it
      returns every readable template and no error. */
  lemma {:induction false} LoadFromShape(l: Loader, acc: map<string, string>, names: seq<string>)
    ensures LoadFrom(l, acc, names) ==
              match FirstFailure(l, names)
              case None => Loaded(Inserted(l, acc, names), None)
              case Some(i) => Loaded(Inserted(l, acc, names[..i]), Some(l.read(PathOf(l, names[i])).error))
    decreases |names|
  {
    if names != [] {
      var rest := names[1..];
      var acc' := After(l, acc, names[0]);
      LoadFromShape(l, acc', rest);
      if Fails(l, names[0]) {
        assert FirstFailure(l, names) == Some(0);
        assert names[..0] == [];
      } else {
        LoadFromStep(l, acc, names);
        FirstFailureStep(l, names);
        match FirstFailure(l, rest)
        case None =>
          InsertedStep(l, acc, names);
        case Some(i) =>
          assert names[..i + 1][1..] == rest[..i];
          assert names[..i + 1][0] == names[0];
          InsertedStep(l, acc, names[..i + 1]);
      }
    }
  }

  /** The map after the loop has looked at one entry. */
  function After(l: Loader, acc: map<string, string>, name: string): map<string, string>
  {
    if Inserts(l, name) then acc[KeyOf(l, name) := l.read(PathOf(l, name)).value] else acc
  }

  lemma LoadFromStep(l: Loader, acc: map<string, string>, names: seq<string>)
    requires names != [] && !Fails(l, names[0])
    ensures LoadFrom(l, acc, names) == LoadFrom(l, After(l, acc, names[0]), names[1..])
  {
  }

  lemma InsertedStep(l: Loader, acc: map<string, string>, names: seq<string>)
    requires names != []
    ensures Inserted(l, acc, names) == Inserted(l, After(l, acc, names[0]), names[1..])
  {
  }

  lemma FirstFailureStep(l: Loader, names: seq<string>)
    requires names != [] && !Fails(l, names[0])
    ensures FirstFailure(l, names) ==
              match FirstFailure(l, names[1..])
              case None => None
              case Some(i) => Some(i + 1)
  {
  }

  /** A key is in the result exactly when it was there before or some
      readable template of the list is filed under it. */
  lemma {:induction false} InsertedKeys(l: Loader, acc: map<string, string>, names: seq<string>, k: string)
    ensures k in Inserted(l, acc, names) <==>
              k in acc || exists i :: 0 <= i < |names| && Inserts(l, names[i]) && KeyOf(l, names[i]) == k
    decreases |names|
  {
    if names != [] {
      var acc' := if Inserts(l, names[0]) then acc[KeyOf(l, names[0]) := l.read(PathOf(l, names[0])).value] else acc;
      InsertedKeys(l, acc', names[1..], k);
      if exists i :: 0 <= i < |names| && Inserts(l, names[i]) && KeyOf(l, names[i]) == k {
        var i :| 0 <= i < |names| && Inserts(l, names[i]) && KeyOf(l, names[i]) == k;
        if i > 0 {
          assert names[1..][i - 1] == names[i];
        }
      }
      if exists i :: 0 <= i < |names[1..]| && Inserts(l, names[1..][i]) && KeyOf(l, names[1..][i]) == k {
        var i :| 0 <= i < |names[1..]| && Inserts(l, names[1..][i]) && KeyOf(l, names[1..][i]) == k;
        assert names[i + 1] == names[1..][i];
      }
    }
  }

  /** A key already present keeps its value when every later template filed
      under it carries the same contents. */
  lemma {:induction false} InsertedKeeps(l: Loader, acc: map<string, string>, names: seq<string>, k: string)
    requires k in acc
    requires forall i :: 0 <= i < |names| && Inserts(l, names[i]) && KeyOf(l, names[i]) == k ==>
               l.read(PathOf(l, names[i])).value == acc[k]
    ensures k in Inserted(l, acc, names) && Inserted(l, acc, names)[k] == acc[k]
    decreases |names|
  {
    if names != [] {
      var acc' := if Inserts(l, names[0]) then acc[KeyOf(l, names[0]) := l.read(PathOf(l, names[0])).value] else acc;
      assert k in acc' && acc'[k] == acc[k];
      forall i | 0 <= i < |names[1..]| && Inserts(l, names[1..][i]) && KeyOf(l, names[1..][i]) == k
        ensures l.read(PathOf(l, names[1..][i])).value == acc'[k]
      {
        assert names[1..][i] == names[i + 1];
      }
      InsertedKeeps(l, acc', names[1..], k);
    }
  }

  /** Keys are told apart: no two different readable templates of the list
      are filed under the same key. */
  ghost predicate DistinctKeys(l: Loader, names: seq<string>)
  {
    forall i, j ::
      (0 <= i < |names| && 0 <= j < |names| && Inserts(l, names[i]) && Inserts(l, names[j]) &&
       KeyOf(l, names[i]) == KeyOf(l, names[j])) ==> names[i] == names[j]
  }

  /** With distinct keys, every readable template of the list ends up filed
      under its key with its own contents. */
  lemma {:induction false} InsertedValue(l: Loader, acc: map<string, string>, names: seq<string>, n: int)
    requires 0 <= n < |names| && Inserts(l, names[n])
    requires DistinctKeys(l, names)
    ensures KeyOf(l, names[n]) in Inserted(l, acc, names)
    ensures Inserted(l, acc, names)[KeyOf(l, names[n])] == l.read(PathOf(l, names[n])).value
    decreases |names|
  {
    var acc' := if Inserts(l, names[0]) then acc[KeyOf(l, names[0]) := l.read(PathOf(l, names[0])).value] else acc;
    if n == 0 {
      var k := KeyOf(l, names[0]);
      forall i | 0 <= i < |names[1..]| && Inserts(l, names[1..][i]) && KeyOf(l, names[1..][i]) == k
        ensures l.read(PathOf(l, names[1..][i])).value == acc'[k]
      {
        assert names[1..][i] == names[i + 1];
      }
      InsertedKeeps(l, acc', names[1..], k);
    } else {
      assert names[1..][n - 1] == names[n];
      assert DistinctKeys(l, names[1..]) by {
        forall i, j | 0 <= i < |names[1..]| && 0 <= j < |names[1..]| && Inserts(l, names[1..][i]) && Inserts(l, names[1..][j]) &&
          KeyOf(l, names[1..][i]) == KeyOf(l, names[1..][j])
          ensures names[1..][i] == names[1..][j]
        {
          assert names[1..][i] == names[i + 1] && names[1..][j] == names[j + 1];
        }
      }
      InsertedValue(l, acc', names[1..], n - 1);
    }
  }

  /** Entries without the suffix play no part: dropping them from the listing
      changes neither the map nor the error. */
  function Suffixed(names: seq<string>, suffix: string): (r: seq<string>)
    ensures forall i :: 0 <= i < |r| ==> Strs.HasSuffix(r[i], suffix)
    ensures |r| <= |names|
  {
    if names == [] then []
    else if Strs.HasSuffix(names[0], suffix) then [names[0]] + Suffixed(names[1..], suffix)
    else Suffixed(names[1..], suffix)
  }

  lemma {:induction false} LoadIgnoresUnsuffixed(l: Loader, acc: map<string, string>, names: seq<string>)
    ensures LoadFrom(l, acc, names) == LoadFrom(l, acc, Suffixed(names, l.suffix))
    decreases |names|
  {
    if names != [] {
      if Strs.HasSuffix(names[0], l.suffix) {
        var s := Suffixed(names, l.suffix);
        assert s[0] == names[0] && s[1..] == Suffixed(names[1..], l.suffix);
        match l.read(PathOf(l, names[0]))
        case Failure(e) =>
        case Success(data) => LoadIgnoresUnsuffixed(l, acc[KeyOf(l, names[0]) := data], names[1..]);
      } else {
        LoadIgnoresUnsuffixed(l, acc, names[1..]);
      }
    }
  }

  /** Two readable templates filed under one key: the map keeps the second. */
  lemma LoadSameKey(l: Loader, a: string, b: string)
    requires Inserts(l, a) && Inserts(l, b) && KeyOf(l, a) == KeyOf(l, b)
    ensures Load(l, [a, b]) == Loaded(map[KeyOf(l, b) := l.read(PathOf(l, b)).value], None)
  {
    var k, da, db := KeyOf(l, b), l.read(PathOf(l, a)).value, l.read(PathOf(l, b)).value;
    assert [a, b][1..] == [b] && [b][1..] == [];
    assert LoadFrom(l, map[k := da], [b]) == LoadFrom(l, map[k := da][k := db], []);
    assert map[k := da][k := db] == map[k := db];
  }

  // ---------------------------------------------------------------------------
  // the key policies

  /** Full-path keys of plain file names never collide. */
  lemma FullPathDistinct(l: Loader, names: seq<string>)
    requires l.policy.FullPath?
    requires forall i :: 0 <= i < |names| ==> Paths.PlainName(names[i])
    ensures DistinctKeys(l, names)
  {
    forall i, j | 0 <= i < |names| && 0 <= j < |names| && Inserts(l, names[i]) && Inserts(l, names[j]) &&
      KeyOf(l, names[i]) == KeyOf(l, names[j])
      ensures names[i] == names[j]
    {
      Paths.JoinInjective(l.dirPath, names[i], names[j]);
    }
  }

  /** Under a full-path key the loader reads the very path it files the
      template under: `Clean` leaves a joined path as it is. */
  lemma FullPathReadsKey(l: Loader, name: string)
    requires l.policy.FullPath? && Paths.PlainName(name)
    ensures PathOf(l, name) == KeyOf(l, name)
  {
    Paths.CleanJoin(l.dirPath, name);
  }

  /** Keys with the suffix cut off once never collide. */
  lemma StrippedNameDistinct(l: Loader, names: seq<string>)
    requires l.policy.StrippedName?
    ensures DistinctKeys(l, names)
  {
    forall i, j | 0 <= i < |names| && 0 <= j < |names| && Inserts(l, names[i]) && Inserts(l, names[j]) &&
      KeyOf(l, names[i]) == KeyOf(l, names[j])
      ensures names[i] == names[j]
    {
      Strs.TrimSuffixInjective(names[i], names[j], l.suffix);
    }
  }
}
