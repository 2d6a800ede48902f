# rls: a minimal directory lister, modelled in Dafny

`rls` prints the names in the current directory on one line. Its `main` has
three stages:

1. For each entry that `read_dir(".")` reports, it splits the path (such as
   `./foo`) on `'/'`. If there is more than one component, it pushes the
   second one onto `paths`.
2. It sorts `paths` in place, in Rust's `String` order.
3. It prints each name followed by two spaces, then one newline.

The model takes the entries as a sequence of path strings, in the order the
directory reports them. It returns the output as a string instead of
writing it to standard output. Each stage is a method with the loop the
source has, proved against a specification function:

- `PathSplit` models `str::split` and `collect`.
- `EntryNames` models stage 1 (`CollectNames`, the append loop).
- `StringOrder` and `NameSort` model stage 2. `SortInPlace` is an insertion
  sort on an `array<string>`.
- `Render` models stage 3 (`RenderNames`, the print loop).
- `Listing` models all of `main` (`ListDirectory`).

Rust's `sort` is a stable sort and the model sorts by insertion. The
two cannot give different results. `String` order is total and
antisymmetric, so a sorted permutation of a list of names is unique
(`NameSort.SortedUnique`).

Other descriptions of this tool mention more: hidden-entry filtering, a
long format with permissions, owners, sizes and times, colours, and
command-line flags. The code in `rls/src/main.rs` has none of these. The model
follows the code. In particular it keeps names that start with `.`.

## Model

| member | source | states |
|---|---|---|
| StringOrder.LexLeCharacterization | rls/src/main.rs:16 | the sort's order holds exactly when `a` is a prefix of `b` or, at the first position where they differ, `a` has the smaller character |
| StringOrder.LexLeReflexive | rls/src/main.rs:16 | every name is `<=` itself |
| StringOrder.LexLeTotal | rls/src/main.rs:16 | any two names are comparable |
| StringOrder.LexLeAntisymmetric | rls/src/main.rs:16 | names that are each `<=` the other are equal |
| StringOrder.LexLeTransitive | rls/src/main.rs:16 | the order is transitive |
| PathSplit.Split | rls/src/main.rs:10 | `split('/')` yields one more component than there are separators, and no component contains the separator |
| PathSplit.JoinSplit | rls/src/main.rs:10 | joining the components with `'/'` gives back the path |
| PathSplit.SplitJoin | rls/src/main.rs:10 | splitting a join of separator-free parts gives back exactly those parts |
| PathSplit.SplitAtFirst | rls/src/main.rs:10 | the first component is the text before the first separator; the rest are the components of the text after it |
| EntryNames.ExtractNameCharacterization | rls/src/main.rs:10-13 | an entry yields a name exactly when its path contains `'/'`; the name is the text between the first and second `'/'` (or the end) and contains no `'/'` |
| EntryNames.ExtractNameOfDotSlash | rls/src/main.rs:7-12 | for the path `./name` the kept component is `name`, a leading dot included |
| EntryNames.NamesOfDotSlash | rls/src/main.rs:5-14 | for entries reported as `./name`, `paths` is the list of entry names in discovery order |
| EntryNames.NamesAppend | rls/src/main.rs:5-14 | entries contribute independently and in discovery order: the names of `a + b` are the names of `a` followed by those of `b` |
| EntryNames.NamesLength | rls/src/main.rs:11-13 | `paths` has exactly one name per entry whose path contains `'/'` |
| EntryNames.NamesBound | rls/src/main.rs:11-13 | `paths` never has more names than there are entries |
| EntryNames.NamesMembership | rls/src/main.rs:11-13 | a name is in `paths` exactly when some entry yields it |
| EntryNames.CollectNames | rls/src/main.rs:4-14 | the append loop builds exactly the discovery-order list of extracted names |
| NameSort.SortedPairwise | rls/src/main.rs:16 | in a sorted list, `s[i] <= s[j]` for all `i <= j` |
| NameSort.InsertPermutes | rls/src/main.rs:16 | inserting into the reference sort adds exactly the inserted name |
| NameSort.InsertSorted | rls/src/main.rs:16 | inserting into a sorted list keeps it sorted |
| NameSort.SortSpecCorrect | rls/src/main.rs:16 | the reference sort returns a sorted permutation of its input |
| NameSort.SortedUnique | rls/src/main.rs:16 | two sorted lists with the same multiset of names are equal, so any correct sort, stable or not, gives the same result |
| NameSort.SortedPermutationIsSortSpec | rls/src/main.rs:16 | any sorted permutation of the names is the reference sort's result |
| NameSort.SortExample | rls/src/main.rs:16 | `b.txt`, `a.txt`, `.hidden` sort to `.hidden`, `a.txt`, `b.txt` |
| NameSort.SortInPlace | rls/src/main.rs:16 | the in-place sort leaves the array ascending and a permutation of what it held, so it equals the reference sort of the old contents |
| Render.BodyAppend | rls/src/main.rs:18-20 | printing two lists of names one after the other gives the concatenation of their outputs |
| Render.RenderedLength | rls/src/main.rs:18-21 | the output length is the sum of `|name| + 2` over the names, plus one |
| Render.RenderedLayout | rls/src/main.rs:18-21 | name `i` appears verbatim at the offset given by the widths of the names before it, followed by two spaces, and the output ends in a newline |
| Render.BodyHasNoNewline | rls/src/main.rs:18-20 | the per-name writes add no line break of their own |
| Render.SingleNewline | rls/src/main.rs:18-21 | when no name contains a line break, the output has exactly one, at its end |
| Render.RenderExample | rls/src/main.rs:18-21 | `.hidden`, `a.txt`, `b.txt` render as `".hidden  a.txt  b.txt  \n"` |
| Render.RenderNames | rls/src/main.rs:18-21 | the print loop produces exactly the rendering: every name followed by two spaces, then one newline |
| Listing.ListDirectory | rls/src/main.rs:3-22 | `main` outputs the rendering of a sorted permutation of the extracted names, which is the reference listing |
| Listing.ListingShowsEveryName | rls/src/main.rs:9-21 | every name some entry yields appears in the output verbatim, followed by two spaces |
| Listing.ListingOfEmptyDirectory | rls/src/main.rs:4-21 | a directory with no entries prints just `"\n"` |
| Listing.ListingOfDirectory | rls/src/main.rs:5-21 | for entries reported as `./name` (as on Unix-like systems), the output is the entry names sorted and rendered, hidden names included |
| Listing.ListingExample | rls/src/main.rs:3-22 | a directory whose entries are reported as `./b.txt`, `./a.txt` and `./.hidden`, that is one holding `b.txt`, `a.txt` and `.hidden` prints `".hidden  a.txt  b.txt  \n"` |

## Left out

- `fs::read_dir(".")` and the two `unwrap()` calls (rls/src/main.rs:5-6) are filesystem I/O with a panic on error. The model takes the entry paths as an input sequence, so it has no error path.
- `to_string_lossy()` (rls/src/main.rs:9) converts platform strings to UTF-8 and replaces invalid bytes. The model takes the paths as strings already.
- `print!` and `println!` (rls/src/main.rs:19, 21) write to standard output. The model returns the text they would write as one string.
- StringOrder.LexLe: compares Unicode scalar values, not UTF-8 bytes as Rust does. The two orders agree on every pair of strings, but that agreement is not proved here.
- Hidden-entry filtering, display modes, the long format, colours and argument handling are not in `rls/src/main.rs`, so the model leaves them out.
