/** The first loop of the lister: each directory entry's path is split on
    `'/'` and, when it has more than one component, its second component is
    pushed onto `paths`. */
module EntryNames {
  import opened PathSplit

  datatype Option<T> = None | Some(value: T)

  /** The name an entry contributes: `components[1]` of its path split on
      `'/'`, or nothing when the path has a single component. */
  function ExtractName(path: string): Option<string> {
    var components := Split(path, '/');
    if |components| > 1 then Some(components[1]) else None
  }

  /** The entry's contribution to `paths`: zero or one name. */
  function Contribution(path: string): seq<string> {
    match ExtractName(path)
    case None => []
    case Some(name) => [name]
  }

  /** `paths` after the first loop has seen `entries`, in discovery order. */
  function Names(entries: seq<string>): seq<string>
    decreases |entries|
  {
    if entries == [] then []
    else Names(entries[..|entries| - 1]) + Contribution(entries[|entries| - 1])
  }

  /** Indices of the entries whose path contains a `'/'`. */
  ghost function Contributing(entries: seq<string>): set<nat> {
    set i: nat | i < |entries| && '/' in entries[i]
  }

  /** A path yields a name exactly when it contains a `'/'`; the name is the
      text between the first `'/'` and the next one (or the end), and holds
      no `'/'` itself. Nothing else is filtered: a name starting with `.` is
      kept like any other. */
  lemma ExtractNameCharacterization(path: string)
    ensures ExtractName(path).Some? <==> '/' in path
    ensures ExtractName(path).Some? ==>
      var rest := path[IndexOf(path, '/') + 1..];
      ExtractName(path).value == rest[..IndexOf(rest, '/')] && '/' !in ExtractName(path).value
  {
    assert '/' in path <==> '/' in multiset(path);
    if '/' in path {
      var i := IndexOf(path, '/');
      assert i < |path| by {
        var k :| 0 <= k < |path| && path[k] == '/';
      }
      SplitAtFirst(path, '/');
      SplitAtFirst(path[i + 1..], '/');
    }
  }

  /** On a Unix-like system `read_dir(".")` reports an entry `name` as the
      path `./name`; what the
      lister keeps of it is exactly `name`, a leading dot included. */
  lemma ExtractNameOfDotSlash(name: string)
    requires '/' !in name
    ensures ExtractName("./" + name) == Some(name)
  {
    var parts := [".", name];
    assert '/' !in parts[0];
    SplitJoin(parts, '/');
    assert "./" + name == Join(parts, '/');
  }

  /** The paths `read_dir(".")` reports, on a Unix-like system, for entries
      with these names. */
  function DotSlash(names: seq<string>): seq<string> {
    seq(|names|, i requires 0 <= i < |names| => "./" + names[i])
  }

  /** For a real directory, whose entry names hold no `'/'`, `paths` is the
      list of entry names in discovery order, hidden ones included. */
  lemma {:induction false} NamesOfDotSlash(names: seq<string>)
    requires forall i :: 0 <= i < |names| ==> '/' !in names[i]
    ensures Names(DotSlash(names)) == names
    decreases |names|
  {
    if names != [] {
      var n := |names| - 1;
      assert DotSlash(names)[..n] == DotSlash(names[..n]);
      NamesOfDotSlash(names[..n]);
      ExtractNameOfDotSlash(names[n]);
      assert names == names[..n] + [names[n]];
    }
  }

  /** Entries contribute independently and in order. */
  lemma {:induction false} NamesAppend(a: seq<string>, b: seq<string>)
    ensures Names(a + b) == Names(a) + Names(b)
    decreases |b|
  {
    if b == [] {
      assert a + b == a;
    } else {
      var b' := b[..|b| - 1];
      assert (a + b)[..|a + b| - 1] == a + b';
      NamesAppend(a, b');
    }
  }

  /** One name per entry that contains a `'/'`, none for the others. */
  lemma {:induction false} NamesLength(entries: seq<string>)
    ensures |Names(entries)| == |Contributing(entries)|
    decreases |entries|
  {
    if entries != [] {
      var n := |entries| - 1;
      var e' := entries[..n];
      NamesLength(e');
      ExtractNameCharacterization(entries[n]);
      if '/' in entries[n] {
        assert Contributing(entries) == Contributing(e') + {n};
      } else {
        assert Contributing(entries) == Contributing(e');
      }
    }
  }

  /** `paths` never holds more names than there were entries. */
  lemma {:induction false} NamesBound(entries: seq<string>)
    ensures |Names(entries)| <= |entries|
    decreases |entries|
  {
    if entries != [] { NamesBound(entries[..|entries| - 1]); }
  }

  /** A name is in `paths` exactly when some entry yields it. */
  lemma {:induction false} NamesMembership(entries: seq<string>, x: string)
    ensures x in Names(entries) <==> exists i :: 0 <= i < |entries| && ExtractName(entries[i]) == Some(x)
    decreases |entries|
  {
    if entries != [] {
      var n := |entries| - 1;
      var e' := entries[..n];
      NamesMembership(e', x);
      if x in Names(e') {
        var i :| 0 <= i < |e'| && ExtractName(e'[i]) == Some(x);
        assert entries[i] == e'[i];
      }
      if exists i :: 0 <= i < |entries| && ExtractName(entries[i]) == Some(x) {
        var i :| 0 <= i < |entries| && ExtractName(entries[i]) == Some(x);
        if i < n { assert e'[i] == entries[i]; }
      }
    }
  }

  /** The first loop, lines 4-14: build `paths` by appending. */
  method CollectNames(entries: seq<string>) returns (paths: seq<string>)
    ensures paths == Names(entries)
  {
    paths := [];
    for i := 0 to |entries|
      invariant paths == Names(entries[..i])
    {
      assert entries[..i + 1][..i] == entries[..i];
      var components := Split(entries[i], '/');
      if |components| > 1 {
        paths := paths + [components[1]];
      }
    }
    assert entries[..|entries|] == entries;
  }
}
