/** From spreadsheet to rows again: the choices an import stores, flattened
    back into rows by the export, give back the rows of the spreadsheet. */
module Pipeline {
  import opened Runtime
  import opened Choices
  import opened ImportHandler
  import opened Enhancer

  /** The choices as the field's settings hold them when they are read
      back for the export. */
  function Stored(cs: seq<Choice>): (r: seq<StoredChoice>)
    ensures |r| == |cs|
    decreases cs
  {
    if cs == [] then [] else Stored(cs[..|cs| - 1]) + [StoredOf(cs[|cs| - 1])]
  }

  function StoredOf(c: Choice): StoredChoice
    decreases c
  {
    StoredChoice(Some(c.text), Stored(c.choices))
  }

  lemma {:induction false} StoredAt(cs: seq<Choice>)
    ensures forall i :: 0 <= i < |cs| ==> Stored(cs)[i] == StoredOf(cs[i])
  {
    if cs != [] {
      var init := cs[..|cs| - 1];
      StoredAt(init);
      assert forall i :: 0 <= i < |init| ==> init[i] == cs[i];
    }
  }

  /** On a level with unique keys, a key is found where it sits. */
  lemma {:induction false} KeyIndexOfUnique(t: seq<Slot>, i: nat)
    requires i < |t| && forall a, b :: 0 <= a < b < |t| ==> t[a].key != t[b].key
    ensures KeyIndex(t, t[i].key) == Some(i)
    decreases i
  {
    if i > 0 {
      var rest := t[1..];
      assert t[0].key != t[i].key;
      assert rest[i - 1] == t[i];
      forall a, b | 0 <= a < b < |rest|
        ensures rest[a].key != rest[b].key
      {
        assert rest[a] == t[a + 1] && rest[b] == t[b + 1];
      }
      KeyIndexOfUnique(rest, i - 1);
    }
  }

  /** A produced row is a non-empty text path down to a leaf. */
  lemma RowOfCombinations(cs: seq<StoredChoice>, r: seq<string>)
    requires r in Combinations(cs, [])
    ensures r != [] && IsLeafPath(cs, r)
  {
    CombinationsMembers(cs, [], r);
    assert r[0..] == r;
  }

  /** A text path down to a leaf of the stored choices of a well-formed tree
      leads, key by key, to an empty level of the tree. */
  lemma {:induction false} LeafPathInTree(t: seq<Slot>, r: seq<string>)
    requires WellFormed(t) && IsLeafPath(Stored(Values(t)), r)
    ensures TableAt(t, r) == Some([])
    decreases t, 1
  {
    var cs := Stored(Values(t));
    ValuesAt(t);
    StoredAt(Values(t));
    var i :| 0 <= i < |cs| && IsLeafPathVia(cs[i], r);
    assert cs[i] == StoredOf(ToChoice(t[i].entry));
    LeafPathThrough(t, i, r);
  }

  /** The same, for a path that starts at the slot `i`. */
  lemma {:induction false} LeafPathThrough(t: seq<Slot>, i: nat, r: seq<string>)
    requires WellFormed(t) && i < |t|
    requires IsLeafPathVia(StoredOf(ToChoice(t[i].entry)), r)
    ensures TableAt(t, r) == Some([])
    decreases t, 0
  {
    var e := t[i].entry;
    assert r[0] == t[i].key;
    KeyIndexOfUnique(t, i);
    ValuesAt(e.choices);
    if e.choices == [] {
      assert r[1..] == [];
    } else {
      assert Stored(Values(e.choices)) != [];
      LeafPathInTree(e.choices, r[1..]);
    }
  }

  /** Every row the export writes for the tree built from `rows` is the
      walk of one of those rows. */
  lemma FlattenedTreeRows(rows: seq<seq<string>>, sanitize: string -> string, r: seq<string>)
    requires r in Combinations(Stored(Values(BuildTree(rows, sanitize))), [])
    ensures r in RowPaths(rows, sanitize)
  {
    LeafOfBuild(rows, sanitize, r);
    LeavesAreRows(rows, sanitize, r);
    var k :| 0 <= k < |rows| && RowPath(rows[k], sanitize) == r;
    assert RowPaths(rows, sanitize)[k] == r;
  }

  /** A row the export writes for a built tree ends at one of its leaves. */
  lemma LeafOfBuild(rows: seq<seq<string>>, sanitize: string -> string, r: seq<string>)
    requires r in Combinations(Stored(Values(BuildTree(rows, sanitize))), [])
    ensures r != [] && TableAt(BuildTree(rows, sanitize), r) == Some([])
  {
    var t := BuildTree(rows, sanitize);
    RowOfCombinations(Stored(Values(t)), r);
    BuildWellFormed(rows, sanitize);
    LeafPathInTree(t, r);
  }

  /** The non-empty cells of a row, in column order. */
  function NonEmptyCells(row: seq<string>): seq<string> {
    if row == [] then []
    else NonEmptyCells(row[..|row| - 1]) + (if row[|row| - 1] == "" then [] else [row[|row| - 1]])
  }

  /** The non-empty cells of each row. */
  function CellRows(rows: seq<seq<string>>): (cs: seq<seq<string>>)
    ensures |cs| == |rows|
    ensures forall k :: 0 <= k < |rows| ==> cs[k] == NonEmptyCells(rows[k])
  {
    seq(|rows|, k requires 0 <= k < |rows| => NonEmptyCells(rows[k]))
  }

  /** With cells that need no trimming and no sanitising, a row's walk is
      its non-empty cells. */
  lemma {:induction false} RowPathOfTrimmed(row: seq<string>)
    requires forall j :: 0 <= j < |row| ==> PhpTrim(row[j]) == row[j]
    ensures RowPath(row, s => s) == NonEmptyCells(row)
  {
    if row != [] {
      var init := row[..|row| - 1];
      assert forall j :: 0 <= j < |init| ==> init[j] == row[j];
      RowPathOfTrimmed(init);
    }
  }

  /** Import then export: with the identity as sanitiser and trimmed cells,
      every row exported from the imported choices is the non-empty cells of
      one of the spreadsheet's data rows. */
  lemma ImportThenExport(rows: seq<seq<string>>, field: Field, limit: int,
                         stripTags: string -> string, r: seq<string>)
    requires forall k, j :: 1 <= k < |rows| && 0 <= j < |rows[k]| ==> PhpTrim(rows[k][j]) == rows[k][j]
    requires ImportOutcome(rows, field, limit, s => s, stripTags).Success?
    requires r in Combinations(Stored(ImportOutcome(rows, field, limit, s => s, stripTags).value.choices), [])
    ensures r in CellRows(rows[1..])
  {
    var data := rows[1..];
    FlattenedTreeRows(data, s => s, r);
    var k :| 0 <= k < |data| && RowPaths(data, s => s)[k] == r;
    assert data[k] == rows[k + 1];
    RowPathOfTrimmed(data[k]);
    assert CellRows(data)[k] == r;
  }
}
