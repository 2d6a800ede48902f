/** The lister's `main`: collect the names of the current directory's
    entries, sort them, and write them on one line. The directory is given as
    the sequence of path strings `read_dir(".")` reports, in the order it
    reports them. */
module Listing {
  import opened EntryNames
  import opened NameSort
  import opened Render

  /** What the lister writes for these entry paths. */
  function Output(entries: seq<string>): string {
    Rendered(SortSpec(Names(entries)))
  }

  /** `main`, lines 3-22, with the directory's entries as input and the
      output returned as a string. The output is the rendering of a sorted
      permutation of the extracted names. */
  method ListDirectory(entries: seq<string>) returns (out: string)
    ensures out == Output(entries)
    ensures exists s :: Sorted(s) && multiset(s) == multiset(Names(entries)) && out == Rendered(s)
  {
    var paths := CollectNames(entries);
    var a := new string[|paths|](i requires 0 <= i < |paths| => paths[i]);
    assert a[..] == paths;
    SortInPlace(a);
    out := RenderNames(a[..]);
    assert Sorted(a[..]) && multiset(a[..]) == multiset(Names(entries));
  }

  /** `out` holds `x` at offset `o`, followed by two spaces. */
  ghost predicate WrittenAt(out: string, x: string, o: nat) {
    o + |x| + 2 <= |out| && out[o..o + |x|] == x && out[o + |x|..o + |x| + 2] == "  "
  }

  /** Every name some entry yields is written out, verbatim, followed by two
      spaces; a hidden entry's name included. */
  lemma ListingShowsEveryName(entries: seq<string>, i: int, x: string)
    requires 0 <= i < |entries| && ExtractName(entries[i]) == Some(x)
    ensures exists o: nat :: WrittenAt(Output(entries), x, o)
  {
    var names := Names(entries);
    NamesMembership(entries, x);
    assert x in names;
    var sorted := SortSpec(names);
    SortSpecCorrect(names);
    assert x in multiset(sorted) by {
      assert x in multiset(names);
    }
    var k :| 0 <= k < |sorted| && sorted[k] == x;
    RenderedLayout(sorted, k);
    var out := Rendered(sorted);
    assert out == Output(entries);
    assert WrittenAt(out, x, Width(sorted[..k]));
  }

  /** An empty directory prints just the newline. */
  lemma ListingOfEmptyDirectory()
    ensures Output([]) == "\n"
  {
  }

  /** For a real directory on a Unix-like system, whose entries
      `read_dir(".")` reports as `./name`, the lister writes the entry names themselves, sorted, hidden
      ones included. */
  lemma ListingOfDirectory(names: seq<string>)
    requires forall i :: 0 <= i < |names| ==> '/' !in names[i]
    ensures Output(DotSlash(names)) == Rendered(SortSpec(names))
  {
    NamesOfDotSlash(names);
  }

  /** A directory holding `b.txt`, `a.txt` and `.hidden`: all three are listed, the hidden one first
      because `.` precedes the letters. */
  lemma ListingExample()
    ensures Output(DotSlash(["b.txt", "a.txt", ".hidden"])) == ".hidden  a.txt  b.txt  \n"
  {
    ListingOfDirectory(["b.txt", "a.txt", ".hidden"]);
    SortExample();
    RenderExample();
  }
}
