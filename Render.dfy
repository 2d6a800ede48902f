/** The second loop of the lister: every name is written followed by two
    spaces, and a single newline ends the output. What would go to standard
    output is built up as a string. */
module Render {

  /** What `print!("{}  ", path)` writes for each name in turn. */
  function Body(names: seq<string>): string
    decreases |names|
  {
    if names == [] then ""
    else Body(names[..|names| - 1]) + names[|names| - 1] + "  "
  }

  /** The whole output: the names, then the newline of `println!()`. */
  function Rendered(names: seq<string>): string {
    Body(names) + "\n"
  }

  /** The sum of `|name| + 2` over the names. */
  function Width(names: seq<string>): nat
    decreases |names|
  {
    if names == [] then 0 else |names[0]| + 2 + Width(names[1..])
  }

  /** Writing two lists of names one after the other writes each in turn. */
  lemma {:induction false} BodyAppend(a: seq<string>, b: seq<string>)
    ensures Body(a + b) == Body(a) + Body(b)
    decreases |b|
  {
    if b == [] {
      assert a + b == a;
    } else {
      var b' := b[..|b| - 1];
      assert (a + b)[..|a + b| - 1] == a + b';
      BodyAppend(a, b');
    }
  }

  /** The output is one character longer than the sum of `|name| + 2`; for no
      names it is the newline alone. */
  lemma {:induction false} RenderedLength(names: seq<string>)
    ensures |Rendered(names)| == Width(names) + 1
    decreases |names|
  {
    if names != [] {
      RenderedLength(names[1..]);
      assert names == [names[0]] + names[1..];
      BodyAppend([names[0]], names[1..]);
      assert Body([names[0]]) == Body([]) + names[0] + "  ";
    }
  }

  /** Name `i` stands at offset `Width(names[..i])`, exactly as it is, and is
      followed by two spaces; the last character is the newline. Together
      with RenderedLength this accounts for every character of the output. */
  lemma RenderedLayout(names: seq<string>, i: int)
    requires 0 <= i < |names|
    ensures
      var out, o, n := Rendered(names), Width(names[..i]), |names[i]|;
      o + n + 2 < |out| &&
      out[o..o + n] == names[i] && out[o + n..o + n + 2] == "  " &&
      out[|out| - 1] == '\n'
  {
    var before, after := names[..i], names[i + 1..];
    assert names == before + [names[i]] + after;
    BodyAppend(before + [names[i]], after);
    assert (before + [names[i]])[..|before|] == before;
    RenderedLength(before);
    RenderedLength(names);
    var o, n := Width(before), |names[i]|;
    var out := Rendered(names);
    assert out == Body(before) + names[i] + "  " + Body(after) + "\n";
    assert |Body(before)| == o;
    assert out[o..o + n] == names[i] && out[o + n..o + n + 2] == "  ";
  }

  /** The names add no line break of their own. */
  lemma {:induction false} BodyHasNoNewline(names: seq<string>)
    requires forall i :: 0 <= i < |names| ==> '\n' !in names[i]
    ensures '\n' !in Body(names)
    decreases |names|
  {
    if names != [] { BodyHasNoNewline(names[..|names| - 1]); }
  }

  /** When no name holds a line break, the output holds exactly one, at its end. */
  lemma SingleNewline(names: seq<string>)
    requires forall i :: 0 <= i < |names| ==> '\n' !in names[i]
    ensures multiset(Rendered(names))['\n'] == 1
    ensures Rendered(names)[|Rendered(names)| - 1] == '\n'
  {
    BodyHasNoNewline(names);
    assert '\n' !in multiset(Body(names));
  }

  /** Three names on one line, each followed by two spaces, then the newline. */
  lemma RenderExample()
    ensures Rendered([".hidden", "a.txt", "b.txt"]) == ".hidden  a.txt  b.txt  \n"
  {
    var names := [".hidden", "a.txt", "b.txt"];
    assert names[..2][..1] == [".hidden"] && names[..2] == [".hidden", "a.txt"];
    assert Body(names[..2][..1]) == ".hidden  ";
    assert Body(names[..2]) == ".hidden  a.txt  ";
  }

  /** The second loop, lines 18-21, with the output accumulated as a string. */
  method RenderNames(names: seq<string>) returns (out: string)
    ensures out == Rendered(names)
  {
    out := "";
    for i := 0 to |names|
      invariant out == Body(names[..i])
    {
      assert names[..i + 1][..i] == names[..i];
      out := out + names[i] + "  ";
    }
    assert names[..|names|] == names;
    out := out + "\n";
  }
}
